/** An optional value, standing for Python's `None` and for an exception a caller catches. */
module Wrappers {
  datatype Option<+T> = None | Some(value: T)
}

/**
 * The few Python string operations the test station relies on, as total
 * functions on `string` (`seq<char>`): substring search (`pat in s`),
 * `str.split(sep)`, `str.zfill(width)`, `''.join(parts)` and the removal of
 * line boundaries done by `''.join(s.splitlines())`.
 */
module Text {

  /** `pat` occurs in `s` starting at index `i`. */
  predicate OccursAt(s: string, pat: string, i: nat)
  {
    i + |pat| <= |s| && s[i..i + |pat|] == pat
  }

  /** The meaning of Python's `pat in s`: some window of `s` is `pat`. */
  ghost predicate Occurs(s: string, pat: string)
  {
    exists i: nat :: OccursAt(s, pat, i)
  }

  /** Python's `pat in s`, computed by scanning from the left. */
  function Contains(s: string, pat: string): bool
    decreases |s|
  {
    if |pat| > |s| then false
    else if s[..|pat|] == pat then true
    else Contains(s[1..], pat)
  }

  lemma {:induction false} ContainsIff(s: string, pat: string)
    ensures Contains(s, pat) <==> Occurs(s, pat)
    decreases |s|
  {
    if |pat| > |s| {
      forall i: nat ensures !OccursAt(s, pat, i) { }
    } else if s[..|pat|] == pat {
      assert OccursAt(s, pat, 0);
    } else {
      ContainsIff(s[1..], pat);
      if Contains(s[1..], pat) {
        var i: nat :| OccursAt(s[1..], pat, i);
        assert s[i + 1..i + 1 + |pat|] == s[1..][i..i + |pat|];
        assert OccursAt(s, pat, i + 1);
      }
      if Occurs(s, pat) {
        var i: nat :| OccursAt(s, pat, i);
        assert i != 0;
        assert s[1..][i - 1..i - 1 + |pat|] == s[i..i + |pat|];
        assert OccursAt(s[1..], pat, i - 1);
      }
    }
  }

  /** Python's `sep.join(parts)` for a one-character separator. */
  function Join(parts: seq<string>, sep: char): string
  {
    if |parts| == 0 then ""
    else if |parts| == 1 then parts[0]
    else parts[0] + [sep] + Join(parts[1..], sep)
  }

  /** Python's `''.join(parts)`. */
  function Concat(parts: seq<string>): string
  {
    if |parts| == 0 then "" else parts[0] + Concat(parts[1..])
  }

  lemma {:induction false} ConcatAppend(parts: seq<string>, last: string)
    ensures Concat(parts + [last]) == Concat(parts) + last
  {
    if |parts| > 0 {
      assert (parts + [last])[1..] == parts[1..] + [last];
      ConcatAppend(parts[1..], last);
    } else {
      assert parts + [last] == [last];
    }
  }

  /**
   * Python's `s.split(sep)` with an explicit one-character separator: the
   * pieces between separators, so there is always at least one piece.
   */
  function Split(s: string, sep: char): (r: seq<string>)
    ensures |r| >= 1
    decreases |s|
  {
    if |s| == 0 then [""]
    else
      var rest := Split(s[1..], sep);
      if s[0] == sep then [""] + rest
      else [[s[0]] + rest[0]] + rest[1..]
  }

  /** Joining the pieces with the separator gives back the string. */
  lemma {:induction false} SplitJoin(s: string, sep: char)
    ensures Join(Split(s, sep), sep) == s
    decreases |s|
  {
    if |s| > 0 {
      var rest := Split(s[1..], sep);
      SplitJoin(s[1..], sep);
      if s[0] == sep {
        assert ([""] + rest)[1..] == rest;
      } else if |rest| > 1 {
        var r := [[s[0]] + rest[0]] + rest[1..];
        assert r[1..] == rest[1..];
        assert Join(rest, sep) == rest[0] + [sep] + Join(rest[1..], sep);
      }
    }
  }

  /** No piece contains the separator. */
  lemma {:induction false} SplitPiecesFree(s: string, sep: char)
    ensures forall i :: 0 <= i < |Split(s, sep)| ==> sep !in Split(s, sep)[i]
    decreases |s|
  {
    if |s| > 0 {
      SplitPiecesFree(s[1..], sep);
      var rest := Split(s[1..], sep);
      if s[0] == sep {
        assert forall i :: 1 <= i < |[""] + rest| ==> ([""] + rest)[i] == rest[i - 1];
      } else {
        var r := [[s[0]] + rest[0]] + rest[1..];
        assert forall i :: 1 <= i < |r| ==> r[i] == rest[i];
      }
    }
  }

  /** There is more than one piece exactly when the separator occurs. */
  lemma {:induction false} SplitMany(s: string, sep: char)
    ensures |Split(s, sep)| > 1 <==> sep in s
    decreases |s|
  {
    if |s| > 0 {
      SplitMany(s[1..], sep);
      assert sep in s <==> s[0] == sep || sep in s[1..];
    }
  }

  /** Without the separator, the string is its only piece. */
  lemma SplitNoSeparator(s: string, sep: char)
    requires sep !in s
    ensures Split(s, sep) == [s]
  {
    SplitMany(s, sep);
    SplitJoin(s, sep);
  }

  /** Text free of the separator, then the separator: that text is the first piece, and the rest splits on. */
  lemma {:induction false} SplitAfterPiece(a: string, b: string, sep: char)
    requires sep !in a
    ensures Split(a + [sep] + b, sep) == [a] + Split(b, sep)
    decreases |a|
  {
    if |a| > 0 {
      var s := a + [sep] + b;
      assert s[0] == a[0] != sep && s[1..] == a[1..] + [sep] + b;
      assert sep !in a[1..];
      SplitAfterPiece(a[1..], b, sep);
      assert [a[0]] + a[1..] == a;
    } else {
      assert a + [sep] + b == [sep] + b;
    }
  }

  /** Three separator-free fields joined by the separator split back into those three. */
  lemma SplitThree(a: string, b: string, c: string, sep: char)
    requires sep !in a && sep !in b && sep !in c
    ensures Split(a + [sep] + b + [sep] + c, sep) == [a, b, c]
  {
    SplitNoSeparator(c, sep);
    SplitAfterPiece(b, c, sep);
    assert a + [sep] + b + [sep] + c == a + [sep] + (b + [sep] + c);
    SplitAfterPiece(a, b + [sep] + c, sep);
  }

  /** The longest prefix of `s` that holds none of the characters in `stops`. */
  function TakeUntil(s: string, stops: set<char>): string
  {
    if |s| == 0 || s[0] in stops then "" else [s[0]] + TakeUntil(s[1..], stops)
  }

  /** What follows the first `c` in `s` (empty when `c` does not occur). */
  function AfterFirst(s: string, c: char): string
  {
    if |s| == 0 then "" else if s[0] == c then s[1..] else AfterFirst(s[1..], c)
  }

  /** `TakeUntil` is the prefix up to, and not including, the first stop character. */
  lemma {:induction false} TakeUntilPrefix(s: string, stops: set<char>)
    ensures |TakeUntil(s, stops)| <= |s| && s[..|TakeUntil(s, stops)|] == TakeUntil(s, stops)
    ensures forall c :: c in TakeUntil(s, stops) ==> c !in stops
    ensures |TakeUntil(s, stops)| == |s| || s[|TakeUntil(s, stops)|] in stops
  {
    if |s| > 0 && s[0] !in stops {
      TakeUntilPrefix(s[1..], stops);
    }
  }

  /** Around the first `c`: `s` is what comes before it, then `c`, then `AfterFirst(s, c)`. */
  lemma {:induction false} AroundFirst(s: string, c: char)
    requires c in s
    ensures s == TakeUntil(s, {c}) + [c] + AfterFirst(s, c)
  {
    if s[0] != c {
      assert c in s[1..];
      AroundFirst(s[1..], c);
    }
  }

  /** The first piece of `s.split(c)` is what precedes the first `c`. */
  lemma {:induction false} SplitFirst(s: string, c: char)
    ensures Split(s, c)[0] == TakeUntil(s, {c})
    decreases |s|
  {
    if |s| > 0 && s[0] != c {
      SplitFirst(s[1..], c);
    }
  }

  /** The second piece of `s.split(c)` is what lies between the first and the second `c`. */
  lemma {:induction false} SplitSecond(s: string, c: char)
    requires c in s
    ensures |Split(s, c)| >= 2 && Split(s, c)[1] == TakeUntil(AfterFirst(s, c), {c})
    decreases |s|
  {
    SplitMany(s, c);
    if s[0] == c {
      SplitFirst(s[1..], c);
    } else {
      assert c in s[1..];
      SplitSecond(s[1..], c);
    }
  }

  /** Stopping at `d` inside the part before the first `c` is stopping at either. */
  lemma {:induction false} TakeUntilTwice(s: string, c: char, d: char)
    ensures TakeUntil(TakeUntil(s, {c}), {d}) == TakeUntil(s, {c, d})
  {
    if |s| > 0 && s[0] != c && s[0] != d {
      TakeUntilTwice(s[1..], c, d);
      assert TakeUntil(s, {c})[1..] == TakeUntil(s[1..], {c});
    }
  }

  /** `k` copies of `'0'`. */
  function Zeros(k: nat): (r: string)
    ensures |r| == k && forall i :: 0 <= i < k ==> r[i] == '0'
  {
    if k == 0 then "" else "0" + Zeros(k - 1)
  }

  /**
   * Python's `s.zfill(width)`: left-pad with `'0'` to `width`, keeping a
   * leading `'+'` or `'-'` in front of the padding.
   */
  function ZFill(s: string, width: int): (r: string)
    ensures |r| == if |s| >= width then |s| else width
  {
    if |s| >= width then s
    else if |s| > 0 && (s[0] == '+' || s[0] == '-') then [s[0]] + Zeros(width - |s|) + s[1..]
    else Zeros(width - |s|) + s
  }

  /** Without a sign in front, `zfill` only prepends zeros. */
  lemma ZFillUnsigned(s: string, width: int)
    requires |s| == 0 || (s[0] != '+' && s[0] != '-')
    ensures ZFill(s, width) == Zeros(|ZFill(s, width)| - |s|) + s
  {
    if |s| >= width {
      assert Zeros(0) + s == s;
    }
  }

  /** The line boundaries that Python's `str.splitlines` splits at. */
  predicate IsLineBreak(c: char)
  {
    c == '\n' || c == '\r' || c == '\U{0b}' || c == '\U{0c}' || c == '\U{1c}' || c == '\U{1d}'
    || c == '\U{1e}' || c == '\U{85}' || c == '\U{2028}' || c == '\U{2029}'
  }

  /** Python's `''.join(s.splitlines())`: the text with every line boundary taken out. */
  function StripLineBreaks(s: string): (r: string)
  {
    if |s| == 0 then ""
    else if IsLineBreak(s[0]) then StripLineBreaks(s[1..])
    else [s[0]] + StripLineBreaks(s[1..])
  }

  lemma {:induction false} StripLineBreaksSpec(s: string)
    ensures forall c :: c in StripLineBreaks(s) ==> !IsLineBreak(c)
    ensures |StripLineBreaks(s)| <= |s|
    ensures (forall c :: c in s ==> !IsLineBreak(c)) ==> StripLineBreaks(s) == s
    ensures StripLineBreaks(s) == "" <==> forall c :: c in s ==> IsLineBreak(c)
  {
    if |s| > 0 {
      StripLineBreaksSpec(s[1..]);
      assert forall c :: c in s <==> c == s[0] || c in s[1..];
    }
  }

  /** Taking the line boundaries out of two texts one after the other is taking them out of each. */
  lemma {:induction false} StripLineBreaksAppend(a: string, b: string)
    ensures StripLineBreaks(a + b) == StripLineBreaks(a) + StripLineBreaks(b)
    decreases |a|
  {
    if |a| > 0 {
      assert (a + b)[0] == a[0] && (a + b)[1..] == a[1..] + b;
      StripLineBreaksAppend(a[1..], b);
    } else {
      assert a + b == b;
    }
  }

  /**
   * One character is dropped when it is a line boundary and kept
   * otherwise; with `StripLineBreaksAppend` this fixes the text of every
   * string, character by character and in order.
   */
  lemma StripLineBreaksChar(c: char)
    ensures StripLineBreaks([c]) == if IsLineBreak(c) then "" else [c]
  {
  }
}
