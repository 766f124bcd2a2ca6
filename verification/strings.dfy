/** String primitives with JavaScript's meaning: the whitespace class shared
    by `\s` and `String.prototype.trim`, substring search (`includes`),
    `split` on a literal separator and `join`. */
module Strings {

  /** ECMAScript's WhiteSpace and LineTerminator characters: exactly what the
      regular-expression class `\s` matches and what `trim` removes. */
  predicate IsJsSpace(c: char) {
    || c == '\t' || c == '\n' || c == '\U{000B}' || c == '\U{000C}' || c == '\r'
    || c == ' ' || c == '\U{00A0}' || c == '\U{1680}'
    || ('\U{2000}' <= c <= '\U{200A}')
    || c == '\U{2028}' || c == '\U{2029}' || c == '\U{202F}' || c == '\U{205F}'
    || c == '\U{3000}' || c == '\U{FEFF}'
  }

  /** `s.trim() === ""`: every character is whitespace. */
  predicate IsBlank(s: string) {
    forall i :: 0 <= i < |s| ==> IsJsSpace(s[i])
  }

  /** `p` occurs in `s` starting at index `i`. */
  predicate OccursAt(s: string, p: string, i: nat) {
    i + |p| <= |s| && s[i..i + |p|] == p
  }

  /** `s.includes(p)`. */
  predicate Contains(s: string, p: string) {
    exists i: nat | i <= |s| :: OccursAt(s, p, i)
  }

  /** Number of occurrences of the character `c` in `s`. */
  function CountChar(s: string, c: char): nat
    decreases |s|
  {
    if |s| == 0 then 0
    else (if s[0] == c then 1 else 0) + CountChar(s[1..], c)
  }

  /** `s.split(sep)` for a non-empty literal separator: the pieces between the
      occurrences of `sep` found by a left-to-right scan. */
  function SplitOn(s: string, sep: string): (r: seq<string>)
    requires |sep| > 0
    ensures |r| >= 1
    decreases |s|
  {
    if |s| == 0 then [""]
    else if |sep| <= |s| && s[..|sep|] == sep then [""] + SplitOn(s[|sep|..], sep)
    else
      var rest := SplitOn(s[1..], sep);
      [[s[0]] + rest[0]] + rest[1..]
  }

  /** `parts.join(sep)`. */
  function JoinWith(parts: seq<string>, sep: string): string
    decreases |parts|
  {
    if |parts| == 0 then ""
    else if |parts| == 1 then parts[0]
    else parts[0] + sep + JoinWith(parts[1..], sep)
  }

  /** A character missing from two strings is missing from both together. */
  lemma CharNotInConcat(c: char, x: string, y: string)
    requires c !in x && c !in y
    ensures c !in x + y
  {
  }

  lemma CountCharAppend(a: string, b: string, c: char)
    ensures CountChar(a + b, c) == CountChar(a, c) + CountChar(b, c)
  {
    if |a| > 0 {
      assert (a + b)[1..] == a[1..] + b;
      CountCharAppend(a[1..], b, c);
    } else {
      assert a + b == b;
    }
  }

  lemma CountCharAbsent(s: string, c: char)
    requires c !in s
    ensures CountChar(s, c) == 0
  {
    if |s| > 0 {
      assert s[1..] <= s[1..];
      CountCharAbsent(s[1..], c);
    }
  }

  /** Putting a character before the first piece puts it before the join. */
  lemma JoinConsFirst(c: char, parts: seq<string>, sep: string)
    requires |parts| > 0
    ensures JoinWith([[c] + parts[0]] + parts[1..], sep) == [c] + JoinWith(parts, sep)
  {
    var r := [[c] + parts[0]] + parts[1..];
    assert r[1..] == parts[1..];
    if |parts| > 1 {
      assert JoinWith(r, sep) == ([c] + parts[0]) + sep + JoinWith(parts[1..], sep);
    }
  }

  /** The first piece begins the join. */
  lemma JoinStartsWithFirst(parts: seq<string>, sep: string)
    requires |parts| > 0
    ensures |parts[0]| <= |JoinWith(parts, sep)|
    ensures JoinWith(parts, sep)[..|parts[0]|] == parts[0]
  {
    if |parts| > 1 {
      assert JoinWith(parts, sep) == parts[0] + (sep + JoinWith(parts[1..], sep));
    }
  }

  /** Joining a piece in front of a non-empty list puts it and a separator
      in front of the join. */
  lemma JoinCons(p: string, parts: seq<string>, sep: string)
    requires |parts| > 0
    ensures JoinWith([p] + parts, sep) == p + sep + JoinWith(parts, sep)
  {
    assert ([p] + parts)[1..] == parts;
  }

  /** The split step at a separator found at the front. */
  lemma SplitAtSeparator(sep: string, t: string)
    requires |sep| > 0
    ensures SplitOn(sep + t, sep) == [""] + SplitOn(t, sep)
  {
    var s := sep + t;
    assert s[..|sep|] == sep;
    assert s[|sep|..] == t;
  }

  /** The split step at an ordinary first character. */
  lemma SplitAtChar(c: char, t: string, sep: string)
    requires |sep| > 0 && !(|sep| <= |t| + 1 && ([c] + t)[..|sep|] == sep)
    ensures SplitOn([c] + t, sep) == [[c] + SplitOn(t, sep)[0]] + SplitOn(t, sep)[1..]
  {
    assert ([c] + t)[1..] == t;
  }

  /** Joining the pieces of a split with the same separator gives back the
      original string. */
  lemma {:induction false} JoinSplit(s: string, sep: string)
    requires |sep| > 0
    ensures JoinWith(SplitOn(s, sep), sep) == s
    decreases |s|
  {
    if |s| == 0 {
    } else if |sep| <= |s| && s[..|sep|] == sep {
      var t := s[|sep|..];
      JoinSplit(t, sep);
      assert s == sep + t;
      SplitAtSeparator(sep, t);
      JoinCons("", SplitOn(t, sep), sep);
      assert "" + sep + t == sep + t;
    } else {
      var t := s[1..];
      JoinSplit(t, sep);
      assert s == [s[0]] + t;
      SplitAtChar(s[0], t, sep);
      JoinConsFirst(s[0], SplitOn(t, sep), sep);
    }
  }

  /** A separator-free string whose start is not the separator stays
      separator-free with one more character in front. */
  lemma NoOccurrenceAfterCons(c: char, t: string, sep: string, whole: string)
    requires |sep| > 0 && !Contains(t, sep)
    requires |t| < |whole| && [c] + t == whole[..|t| + 1]
    requires !(|sep| <= |whole| && whole[..|sep|] == sep)
    ensures !Contains([c] + t, sep)
  {
    var first := [c] + t;
    forall i: nat ensures !OccursAt(first, sep, i) {
      if i == 0 {
        if |sep| <= |first| {
          assert first[..|sep|] == whole[..|sep|];
        }
      } else if i + |sep| <= |first| {
        assert first[i..i + |sep|] == t[i - 1..i - 1 + |sep|];
        assert !OccursAt(t, sep, i - 1);
      }
    }
  }

  /** No piece of a split contains the separator: the scan finds every
      occurrence that does not overlap an earlier one. */
  lemma {:induction false} SplitPiecesAreSeparatorFree(s: string, sep: string)
    requires |sep| > 0
    ensures forall k :: 0 <= k < |SplitOn(s, sep)| ==> !Contains(SplitOn(s, sep)[k], sep)
    decreases |s|
  {
    var r := SplitOn(s, sep);
    if |s| == 0 {
      assert r == [""];
      forall i: nat ensures !OccursAt("", sep, i) { }
    } else if |sep| <= |s| && s[..|sep|] == sep {
      SplitPiecesAreSeparatorFree(s[|sep|..], sep);
      forall i: nat ensures !OccursAt("", sep, i) { }
      forall k | 0 <= k < |r| ensures !Contains(r[k], sep) {
        if k > 0 {
          assert r[k] == SplitOn(s[|sep|..], sep)[k - 1];
        }
      }
    } else {
      var rest := SplitOn(s[1..], sep);
      SplitPiecesAreSeparatorFree(s[1..], sep);
      JoinSplit(s[1..], sep);
      JoinStartsWithFirst(rest, sep);
      assert [s[0]] + rest[0] == s[..|rest[0]| + 1];
      NoOccurrenceAfterCons(s[0], rest[0], sep, s);
      forall k | 0 <= k < |r| ensures !Contains(r[k], sep) {
        if k > 0 {
          assert r[k] == rest[k];
        }
      }
    }
  }

  /** Splitting on a one-character separator yields one more piece than the
      separator's occurrences. */
  lemma {:induction false} SplitCharCount(s: string, c: char)
    ensures |SplitOn(s, [c])| == CountChar(s, c) + 1
    decreases |s|
  {
    if |s| > 0 {
      SplitCharCount(s[1..], c);
    }
  }

  /** A split distributes over a separator placed between two strings. */
  lemma {:induction false} SplitOnAround(a: string, c: char, b: string)
    ensures SplitOn(a + [c] + b, [c]) == SplitOn(a, [c]) + SplitOn(b, [c])
    decreases |a|
  {
    var s := a + [c] + b;
    if |a| == 0 {
      assert s == [c] + b;
      assert s[1..] == b;
    } else if a[0] == c {
      assert s[..1] == [c];
      assert s[1..] == a[1..] + [c] + b;
      SplitOnAround(a[1..], c, b);
    } else {
      assert s[1..] == a[1..] + [c] + b;
      SplitOnAround(a[1..], c, b);
      var ra := SplitOn(a[1..], [c]);
      var rest := SplitOn(s[1..], [c]);
      assert rest == ra + SplitOn(b, [c]);
      assert rest[0] == ra[0];
      assert rest[1..] == ra[1..] + SplitOn(b, [c]);
    }
  }

  /** `join` distributes over concatenation of two non-empty lists. */
  lemma {:induction false} JoinAppend(x: seq<string>, y: seq<string>, sep: string)
    requires |x| > 0 && |y| > 0
    ensures JoinWith(x + y, sep) == JoinWith(x, sep) + sep + JoinWith(y, sep)
    decreases |x|
  {
    if |x| == 1 {
      assert (x + y)[1..] == y;
    } else {
      assert (x + y)[1..] == x[1..] + y;
      JoinAppend(x[1..], y, sep);
    }
  }

  /** A join of parts free of `c`, with a separator holding `c` once, holds
      `c` once per separator. */
  lemma {:induction false} CountCharJoin(parts: seq<string>, sep: string, c: char)
    requires |parts| > 0
    requires forall k :: 0 <= k < |parts| ==> c !in parts[k]
    requires CountChar(sep, c) == 1
    ensures CountChar(JoinWith(parts, sep), c) == |parts| - 1
    decreases |parts|
  {
    if |parts| == 1 {
      CountCharAbsent(parts[0], c);
    } else {
      CountCharJoin(parts[1..], sep, c);
      CountCharAbsent(parts[0], c);
      CountCharAppend(parts[0] + sep, JoinWith(parts[1..], sep), c);
      CountCharAppend(parts[0], sep, c);
    }
  }

  /** A character absent from every part and from the separator is absent
      from the join. */
  lemma {:induction false} CharAbsentFromJoin(parts: seq<string>, sep: string, c: char)
    requires c !in sep
    requires forall k :: 0 <= k < |parts| ==> c !in parts[k]
    ensures c !in JoinWith(parts, sep)
    decreases |parts|
  {
    if |parts| > 1 {
      CharAbsentFromJoin(parts[1..], sep, c);
    }
  }
}
