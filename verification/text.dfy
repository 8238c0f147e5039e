/** Character-sequence operations with the meaning Python gives them:
    `str.startswith`, `str.split(sep)` for a one-character separator,
    `str.replace(old, '')` and `str.strip()`. */
module Text {

  /** Python's `str.isspace()` for a single character: the ASCII
      whitespace and separator controls plus the Unicode space separators. */
  predicate IsSpace(c: char) {
    || c == ' ' || c == '\t' || c == '\n' || c == '\r'
    || c == '\U{000B}' || c == '\U{000C}'
    || ('\U{001C}' <= c <= '\U{001F}')
    || c == '\U{0085}' || c == '\U{00A0}' || c == '\U{1680}'
    || ('\U{2000}' <= c <= '\U{200A}')
    || c == '\U{2028}' || c == '\U{2029}' || c == '\U{202F}'
    || c == '\U{205F}' || c == '\U{3000}'
  }

  predicate AllSpace(s: string) {
    forall i :: 0 <= i < |s| ==> IsSpace(s[i])
  }

  /** Neither end is whitespace (the empty string qualifies). */
  predicate Trimmed(s: string) {
    |s| == 0 || (!IsSpace(s[0]) && !IsSpace(s[|s| - 1]))
  }

  /** `s.startswith(p)` */
  predicate StartsWith(s: string, p: string) {
    |p| <= |s| && s[..|p|] == p
  }

  /** The window of `s` starting at `i` equals `p`. */
  predicate OccursAt(s: string, p: string, i: nat) {
    i + |p| <= |s| && s[i..i + |p|] == p
  }

  /** `p in s` for a non-empty pattern. */
  predicate Occurs(s: string, p: string) {
    exists i: nat :: i <= |s| && OccursAt(s, p, i)
  }

  /** `s.lstrip()` */
  function StripStart(s: string): (r: string)
    ensures |r| <= |s|
    ensures |r| == 0 || !IsSpace(r[0])
  {
    if |s| > 0 && IsSpace(s[0]) then StripStart(s[1..]) else s
  }

  /** `s.rstrip()` */
  function StripEnd(s: string): (r: string)
    ensures |r| <= |s|
    ensures |r| == 0 || !IsSpace(r[|r| - 1])
    ensures |r| > 0 ==> r[0] == s[0]
  {
    if |s| > 0 && IsSpace(s[|s| - 1]) then StripEnd(s[..|s| - 1]) else s
  }

  /** `s.strip()`: the text between the leading and the trailing whitespace. */
  function Strip(s: string): (r: string)
    ensures Trimmed(r)
  {
    StripEnd(StripStart(s))
  }

  lemma {:induction false} StripStartAfterSpaces(a: string, u: string)
    requires AllSpace(a)
    requires |u| == 0 || !IsSpace(u[0])
    ensures StripStart(a + u) == u
    decreases |a|
  {
    if |a| > 0 {
      assert (a + u)[1..] == a[1..] + u;
      StripStartAfterSpaces(a[1..], u);
    } else {
      assert a + u == u;
    }
  }

  lemma {:induction false} StripEndBeforeSpaces(u: string, b: string)
    requires AllSpace(b)
    requires |u| == 0 || !IsSpace(u[|u| - 1])
    ensures StripEnd(u + b) == u
    decreases |b|
  {
    if |b| > 0 {
      assert (u + b)[..|u + b| - 1] == u + b[..|b| - 1];
      StripEndBeforeSpaces(u, b[..|b| - 1]);
    } else {
      assert u + b == u;
    }
  }

  /** `strip()` is the inverse of surrounding a trimmed text with whitespace:
      the decomposition promised by `Strip`'s contract is the only one. */
  lemma {:induction false} StripUnique(a: string, t: string, b: string)
    requires AllSpace(a) && AllSpace(b) && Trimmed(t)
    ensures Strip(a + t + b) == t
  {
    if |t| == 0 {
      assert a + t + b == (a + b) + t;
      assert AllSpace(a + b);
      StripStartAfterSpaces(a + b, t);
      assert StripEnd([]) == [];
    } else {
      assert a + t + b == a + (t + b);
      StripStartAfterSpaces(a, t + b);
      StripEndBeforeSpaces(t, b);
    }
  }

  /** `s.replace(pat, '')`: every non-overlapping occurrence of `pat`,
      found scanning left to right, is deleted. */
  function RemoveAll(s: string, pat: string): (r: string)
    requires |pat| > 0
    ensures |r| <= |s|
    decreases |s|
  {
    if |s| == 0 then []
    else if StartsWith(s, pat) then RemoveAll(s[|pat|..], pat)
    else [s[0]] + RemoveAll(s[1..], pat)
  }

  /** A text that does not contain the pattern is left as it is. */
  lemma {:induction false} RemoveAllAbsent(s: string, pat: string)
    requires |pat| > 0
    requires !Occurs(s, pat)
    ensures RemoveAll(s, pat) == s
    decreases |s|
  {
    if |s| > 0 {
      if StartsWith(s, pat) {
        assert OccursAt(s, pat, 0);
        assert false;
      }
      if Occurs(s[1..], pat) {
        var i: nat :| i <= |s[1..]| && OccursAt(s[1..], pat, i);
        assert s[i + 1..i + 1 + |pat|] == s[1..][i..i + |pat|];
        assert OccursAt(s, pat, i + 1);
        assert false;
      }
      RemoveAllAbsent(s[1..], pat);
    }
  }

  /** A pattern leading a text that does not otherwise contain it is the
      only thing removed. */
  lemma RemoveAllLeading(pat: string, v: string)
    requires |pat| > 0
    requires !Occurs(v, pat)
    ensures RemoveAll(pat + v, pat) == v
  {
    assert (pat + v)[..|pat|] == pat;
    assert (pat + v)[|pat|..] == v;
    RemoveAllAbsent(v, pat);
  }

  /** `s.split(sep)`: the pieces between separators, empty ones included,
      so the result is never empty. */
  function Split(s: string, sep: char): (parts: seq<string>)
    ensures |parts| >= 1
    ensures forall i :: 0 <= i < |parts| ==> sep !in parts[i]
  {
    if |s| == 0 then [[]]
    else
      var rest := Split(s[1..], sep);
      if s[0] == sep then [[]] + rest
      else [[s[0]] + rest[0]] + rest[1..]
  }

  /** `sep.join(parts)` */
  function Join(parts: seq<string>, sep: char): string
    requires |parts| >= 1
  {
    if |parts| == 1 then parts[0] else parts[0] + [sep] + Join(parts[1..], sep)
  }

  /** Joining the pieces of a split restores the text. */
  lemma {:induction false} JoinSplit(s: string, sep: char)
    ensures Join(Split(s, sep), sep) == s
  {
    if |s| > 0 {
      var rest := Split(s[1..], sep);
      JoinSplit(s[1..], sep);
      if s[0] == sep {
        assert ([[]] + rest)[1..] == rest;
      } else if |rest| == 1 {
      } else {
        var parts := [[s[0]] + rest[0]] + rest[1..];
        assert parts[1..] == rest[1..];
        assert Join(rest, sep) == rest[0] + [sep] + Join(rest[1..], sep);
        assert s == [s[0]] + s[1..];
      }
    }
  }

  /** Splitting a text that begins with separator-free `w` glues `w` onto
      the first piece. */
  lemma {:induction false} SplitAfter(w: string, s: string, sep: char)
    requires sep !in w
    ensures Split(w + s, sep) == [w + Split(s, sep)[0]] + Split(s, sep)[1..]
    decreases |w|
  {
    if |w| == 0 {
      var parts := Split(s, sep);
      assert w + s == s;
      assert w + parts[0] == parts[0];
      assert parts == [parts[0]] + parts[1..];
    } else {
      assert (w + s)[1..] == w[1..] + s;
      SplitAfter(w[1..], s, sep);
      assert [w[0]] + (w[1..] + Split(s, sep)[0]) == w + Split(s, sep)[0];
    }
  }

  /** Splitting separator-free pieces joined by the separator gives the
      pieces back. */
  lemma {:induction false} SplitJoin(parts: seq<string>, sep: char)
    requires |parts| >= 1
    requires forall i :: 0 <= i < |parts| ==> sep !in parts[i]
    ensures Split(Join(parts, sep), sep) == parts
    decreases |parts|
  {
    SplitAfter(parts[0], [], sep);
    assert parts[0] + [] == parts[0];
    if |parts| > 1 {
      var tail := Join(parts[1..], sep);
      SplitJoin(parts[1..], sep);
      assert parts[0] + [sep] + tail == parts[0] + ([sep] + tail);
      SplitAfter(parts[0], [sep] + tail, sep);
      assert ([sep] + tail)[1..] == tail;
      assert parts == [parts[0]] + parts[1..];
    }
  }

  /** `lstrip()` removes whitespace only. */
  lemma {:induction false} StripStartFrame(s: string) returns (a: string)
    ensures AllSpace(a) && s == a + StripStart(s)
    decreases |s|
  {
    if |s| > 0 && IsSpace(s[0]) {
      var a' := StripStartFrame(s[1..]);
      a := [s[0]] + a';
      assert s == [s[0]] + s[1..];
    } else {
      a := [];
    }
  }

  /** `rstrip()` removes whitespace only. */
  lemma {:induction false} StripEndFrame(t: string) returns (b: string)
    ensures AllSpace(b) && t == StripEnd(t) + b
    decreases |t|
  {
    if |t| > 0 && IsSpace(t[|t| - 1]) {
      var n := |t| - 1;
      var b' := StripEndFrame(t[..n]);
      b := b' + [t[n]];
      assert t == t[..n] + [t[n]];
    } else {
      b := [];
    }
  }

  /** The text between the whitespace `strip()` removes. */
  lemma StripFrame(s: string) returns (a: string, b: string)
    ensures AllSpace(a) && AllSpace(b) && s == a + Strip(s) + b
  {
    var t := StripStart(s);
    a := StripStartFrame(s);
    b := StripEndFrame(t);
    Regroup3(a, StripEnd(t), b);
  }

  /** `sep.join` of three pieces. */
  lemma JoinThree(p0: string, p1: string, p2: string, sep: char)
    ensures Join([p0, p1, p2], sep) == p0 + [sep] + p1 + [sep] + p2
  {
    var parts := [p0, p1, p2];
    assert parts[1..] == [p1, p2];
    assert parts[1..][1..] == [p2];
    assert Join(parts[1..], sep) == p1 + [sep] + p2;
    assert Join(parts, sep) == p0 + [sep] + (p1 + [sep] + p2);
  }

  /** The text between a known head and a known tail. */
  lemma Middle(o: string, m: string, c: string)
    ensures (o + m + c)[|o|..|o + m + c| - |c|] == m
  {
  }

  /** Regrouping the frame around a stripped text. */
  lemma Regroup3(a: string, r: string, b: string)
    ensures a + (r + b) == a + r + b
  {
  }

  /** A trimmed text is its own `strip()`. */
  lemma StripTrimmed(t: string)
    requires Trimmed(t)
    ensures Strip(t) == t
  {
    StripUnique([], t, []);
    assert [] + t + [] == t;
  }

  /** `strip()` only removes characters. */
  lemma StripKeepsOut(s: string, c: char)
    requires c !in s
    ensures c !in Strip(s)
  {
    var a, b := StripFrame(s);
    assert Strip(s) == s[|a|..|s| - |b|];
  }

  lemma AllSpaceConcat(x: string, y: string)
    requires AllSpace(x) && AllSpace(y)
    ensures AllSpace(x + y)
  {
    forall i | 0 <= i < |x + y| ensures IsSpace((x + y)[i]) {
      if i < |x| { assert (x + y)[i] == x[i]; } else { assert (x + y)[i] == y[i - |x|]; }
    }
  }

  /** Whitespace around a text does not change what `strip()` keeps. */
  lemma StripAbsorbs(a: string, x: string, b: string)
    requires AllSpace(a) && AllSpace(b)
    ensures Strip(a + x + b) == Strip(x)
  {
    var t := Strip(x);
    var a', b' := StripFrame(x);
    var u, v := a + a', b' + b;
    AllSpaceConcat(a, a');
    AllSpaceConcat(b', b);
    assert a + (a' + t + b') + b == (a + a') + t + (b' + b);
    assert a + x + b == u + t + v;
    StripUnique(u, t, v);
  }

  /** Splitting a text that ends with separator-free `w` glues `w` onto
      the last piece. */
  lemma {:induction false} SplitBefore(t: string, w: string, sep: char)
    requires sep !in w
    ensures var q := Split(t, sep);
      Split(t + w, sep) == q[..|q| - 1] + [q[|q| - 1] + w]
    decreases |t|
  {
    var q := Split(t, sep);
    if |t| == 0 {
      SplitAfter(w, [], sep);
      assert w + [] == w;
      assert t + w == w;
    } else {
      var q' := Split(t[1..], sep);
      assert (t + w)[1..] == t[1..] + w;
      SplitBefore(t[1..], w, sep);
      if t[0] == sep {
        assert q == [[]] + q';
      } else if |q'| == 1 {
        assert [t[0]] + (q'[0] + w) == ([t[0]] + q'[0]) + w;
      } else {
        assert [t[0]] + (q'[0] + w) == ([t[0]] + q'[0]) + w;
        assert q == [[t[0]] + q'[0]] + q'[1..];
      }
    }
  }

  /** A character that is neither in the pieces nor the separator is not
      in their join. */
  lemma {:induction false} JoinAvoids(parts: seq<string>, sep: char, c: char)
    requires |parts| >= 1 && c != sep
    requires forall i :: 0 <= i < |parts| ==> c !in parts[i]
    ensures c !in Join(parts, sep)
    decreases |parts|
  {
    if |parts| > 1 {
      JoinAvoids(parts[1..], sep, c);
    }
  }

  /** An occurrence of a pattern that holds `c` puts `c` into the text. */
  lemma AbsentCharNoOccurrence(s: string, p: string, c: char)
    requires c in p && c !in s
    ensures !Occurs(s, p)
  {
  }

  /** A pattern that does not start with `c` occurs in `[c] + s` only if
      it occurs in `s`. */
  lemma OccursAfterChar(c: char, s: string, p: string)
    requires |p| > 0 && p[0] != c && !Occurs(s, p)
    ensures !Occurs([c] + s, p)
  {
    if Occurs([c] + s, p) {
      var i: nat :| i <= |[c] + s| && OccursAt([c] + s, p, i);
      assert i > 0 by { assert ([c] + s)[i..i + |p|][0] == p[0]; }
      assert ([c] + s)[i..i + |p|] == s[i - 1..i - 1 + |p|];
      assert OccursAt(s, p, i - 1);
    }
  }

  /** A pattern at the front is removed and scanning resumes after it. */
  lemma RemoveAllAfterPattern(pat: string, s: string)
    requires |pat| > 0
    ensures RemoveAll(pat + s, pat) == RemoveAll(s, pat)
  {
    assert (pat + s)[..|pat|] == pat;
    assert (pat + s)[|pat|..] == s;
  }

  /** Text none of whose characters can start the pattern is kept as it is,
      and scanning carries on after it. */
  lemma {:induction false} RemoveAllSkips(w: string, s: string, pat: string)
    requires |pat| > 0
    requires pat[0] !in w
    ensures RemoveAll(w + s, pat) == w + RemoveAll(s, pat)
    decreases |w|
  {
    if |w| > 0 {
      assert (w + s)[0] == w[0];
      assert !StartsWith(w + s, pat);
      assert (w + s)[1..] == w[1..] + s;
      RemoveAllSkips(w[1..], s, pat);
      assert w == [w[0]] + w[1..];
    } else {
      assert w + s == s;
    }
  }

  /** The pattern's last character appears nowhere else in it, as the
      colon that ends each label. */
  predicate LastUnique(pat: string) {
    |pat| > 0 && forall k :: 0 <= k < |pat| - 1 ==> pat[k] != pat[|pat| - 1]
  }

  /** Dropping the first character keeps a pattern out of a text. */
  lemma NoOccurrenceTail(w: string, p: string)
    requires |w| > 0 && !Occurs(w, p)
    ensures !Occurs(w[1..], p)
  {
    forall i: nat | i <= |w[1..]| ensures !OccursAt(w[1..], p, i) {
      if i + |p| <= |w[1..]| {
        assert w[1..][i..i + |p|] == w[i + 1..i + 1 + |p|];
        assert !OccursAt(w, p, i + 1);
      }
    }
  }

  /** No occurrence of the pattern starts in a text free of it when the
      pattern follows: the window would end inside the pattern, on a
      character other than its last. */
  lemma NoEarlyPattern(w: string, pat: string, rest: string)
    requires LastUnique(pat) && |w| > 0 && !Occurs(w, pat)
    ensures !StartsWith(w + pat + rest, pat)
  {
    var s := w + pat + rest;
    if |pat| <= |w| {
      assert s[..|pat|] == w[..|pat|];
      assert !OccursAt(w, pat, 0);
    } else {
      var q := |pat| - 1 - |w|;
      assert s[|pat| - 1] == pat[q];
      assert s[..|pat|][|pat| - 1] == s[|pat| - 1];
    }
  }

  /** A text free of the pattern, then the pattern: the text is kept, the
      pattern removed, and scanning resumes after it. */
  lemma {:induction false} RemoveAllBeforePattern(w: string, pat: string, rest: string)
    requires LastUnique(pat) && !Occurs(w, pat)
    ensures RemoveAll(w + pat + rest, pat) == w + RemoveAll(rest, pat)
    decreases |w|
  {
    if |w| == 0 {
      assert w + pat + rest == pat + rest;
      RemoveAllAfterPattern(pat, rest);
    } else {
      NoEarlyPattern(w, pat, rest);
      assert (w + pat + rest)[1..] == w[1..] + pat + rest;
      NoOccurrenceTail(w, pat);
      RemoveAllBeforePattern(w[1..], pat, rest);
      assert w == [w[0]] + w[1..];
    }
  }

  /** The pieces with the pattern between each two: `pat.join(ws)`. */
  function Interleave(ws: seq<string>, pat: string): string
    requires |ws| >= 1
  {
    if |ws| == 1 then ws[0] else ws[0] + pat + Interleave(ws[1..], pat)
  }

  /** The pieces one after another: `''.join(ws)`. */
  function Concat(ws: seq<string>): string {
    if |ws| == 0 then [] else ws[0] + Concat(ws[1..])
  }

  /** `replace` removes every occurrence of a pattern whose last character
      is unique: whatever pieces stand between the occurrences, so long as
      none holds the pattern itself, only the pieces remain. */
  lemma {:induction false} RemoveAllEverywhere(ws: seq<string>, pat: string)
    requires |ws| >= 1 && LastUnique(pat)
    requires forall i :: 0 <= i < |ws| ==> !Occurs(ws[i], pat)
    ensures RemoveAll(Interleave(ws, pat), pat) == Concat(ws)
    decreases |ws|
  {
    if |ws| == 1 {
      RemoveAllAbsent(ws[0], pat);
      assert Concat(ws[1..]) == [];
      assert ws[0] + [] == ws[0];
    } else {
      RemoveAllBeforePattern(ws[0], pat, Interleave(ws[1..], pat));
      RemoveAllEverywhere(ws[1..], pat);
    }
  }

  /** A pattern without `c` that occurs on neither side of a `c` does not
      occur across it either. */
  lemma OccursAcross(s1: string, c: char, s2: string, p: string)
    requires c !in p && !Occurs(s1, p) && !Occurs(s2, p)
    ensures !Occurs(s1 + [c] + s2, p)
  {
    var s := s1 + [c] + s2;
    forall i: nat | i <= |s| ensures !OccursAt(s, p, i) {
      if i + |p| <= |s| {
        if i + |p| <= |s1| {
          assert s[i..i + |p|] == s1[i..i + |p|];
          assert !OccursAt(s1, p, i);
        } else if i > |s1| {
          var j := i - |s1| - 1;
          assert s[i..i + |p|] == s2[j..j + |p|];
          assert !OccursAt(s2, p, j);
        } else {
          assert s[i..i + |p|][|s1| - i] == c;
        }
      }
    }
  }

  /** A pattern free of the separator that occurs in no piece does not
      occur in their join. */
  lemma {:induction false} JoinNoOccurrence(parts: seq<string>, sep: char, p: string)
    requires |parts| >= 1 && sep !in p
    requires forall i :: 0 <= i < |parts| ==> !Occurs(parts[i], p)
    ensures !Occurs(Join(parts, sep), p)
    decreases |parts|
  {
    if |parts| > 1 {
      JoinNoOccurrence(parts[1..], sep, p);
      OccursAcross(parts[0], sep, Join(parts[1..], sep), p);
    }
  }

  /** A trailing separator ends the text with an empty piece. */
  lemma {:induction false} SplitTrailingSeparator(t: string, sep: char)
    ensures Split(t + [sep], sep) == Split(t, sep) + [[]]
    decreases |t|
  {
    if |t| == 0 {
      assert t + [sep] == [sep];
      assert Split([sep][1..], sep) == [[]];
    } else {
      assert (t + [sep])[1..] == t[1..] + [sep];
      SplitTrailingSeparator(t[1..], sep);
      var q' := Split(t[1..], sep);
      if t[0] != sep {
        assert (q' + [[]])[0] == q'[0];
        assert (q' + [[]])[1..] == q'[1..] + [[]];
      }
    }
  }

  /** Splitting off the last piece, which holds no separator. */
  lemma SplitLastPiece(t: string, w: string, sep: char)
    requires sep !in w
    ensures Split(t + [sep] + w, sep) == Split(t, sep) + [w]
  {
    SplitBefore(t + [sep], w, sep);
    SplitTrailingSeparator(t, sep);
    var q := Split(t + [sep], sep);
    assert q[..|q| - 1] == Split(t, sep);
    assert q[|q| - 1] + w == w;
  }
}
