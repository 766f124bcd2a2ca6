/** The `companyID=` query parameter as the regular expression
    `/companyID=([^&]+)/` sees it: `match` finds the leftmost occurrence of
    `companyID=` followed by at least one character other than `&` and
    captures the longest run of such characters; `replace` without the `g`
    flag rewrites that one match only. */
module CompanyIdParam {
  import opened Optional

  const Key: string := "companyID="

  /** The regular expression matches at index `i` of `s`. */
  predicate MatchAt(s: string, i: nat) {
    i + |Key| < |s| && s[i..i + |Key|] == Key && s[i + |Key|] != '&'
  }

  /** The end of the captured value that starts at `j`: the first `&` at or
      after `j`, or the end of the string. */
  function ValueEnd(s: string, j: nat): (k: nat)
    requires j <= |s|
    ensures j <= k <= |s|
    ensures k == |s| || s[k] == '&'
    ensures forall m :: j <= m < k ==> s[m] != '&'
    decreases |s| - j
  {
    if j == |s| || s[j] == '&' then j else ValueEnd(s, j + 1)
  }

  /** The leftmost match at or after `i`. */
  function FindFrom(s: string, i: nat): (r: Option<nat>)
    ensures r.Some? ==> i <= r.value && MatchAt(s, r.value)
    ensures r.Some? ==> forall j: nat :: i <= j < r.value ==> !MatchAt(s, j)
    ensures r.None? ==> forall j: nat :: i <= j ==> !MatchAt(s, j)
    decreases |s| - i
  {
    if i + |Key| >= |s| then None
    else if MatchAt(s, i) then Some(i)
    else FindFrom(s, i + 1)
  }

  /** Index of the leftmost match in the whole string. */
  function FirstMatch(s: string): Option<nat> {
    FindFrom(s, 0)
  }

  /** `match[1]` of `s.match(/companyID=([^&]+)/)`, or None when it fails. */
  function Extract(s: string): (r: Option<string>)
    ensures r.Some? ==> |r.value| > 0 && '&' !in r.value
    ensures r.None? <==> forall j: nat :: !MatchAt(s, j)
    ensures r.Some? ==>
      exists i: nat :: MatchAt(s, i) && (forall j: nat :: j < i ==> !MatchAt(s, j))
        && i + |Key| + |r.value| <= |s| && s[i + |Key|..i + |Key| + |r.value|] == r.value
        && (i + |Key| + |r.value| == |s| || s[i + |Key| + |r.value|] == '&')
  {
    match FirstMatch(s)
    case None => None
    case Some(i) =>
      var b := i + |Key|;
      var value := s[b..ValueEnd(s, b)];
      assert MatchAt(s, i) && b + |value| == ValueEnd(s, b);
      assert forall j: nat :: j < i ==> !MatchAt(s, j);
      assert s[b..b + |value|] == value;
      Some(value)
  }

  /** `s.replace(/companyID=([^&]+)/, "companyID=" + v)`, with `v` inserted
      literally. */
  function ReplaceFirst(s: string, v: string): (r: string)
    ensures Extract(s).None? ==> r == s
    ensures Extract(s).Some? ==> |r| == |s| - |Extract(s).value| + |v|
    ensures Extract(s).Some? ==>
      var b := FirstMatch(s).value + |Key|;
      b + |Extract(s).value| <= |s| && r == s[..b] + v + s[b + |Extract(s).value|..]
  {
    match FirstMatch(s)
    case None => s
    case Some(i) =>
      var b := i + |Key|;
      assert s[..b] == s[..i] + Key;
      s[..i] + Key + v + s[ValueEnd(s, b)..]
  }

  /** The leftmost match is determined by any match with none before it. */
  lemma FirstMatchIs(s: string, k: nat)
    requires MatchAt(s, k)
    requires forall j: nat :: j < k ==> !MatchAt(s, j)
    ensures FirstMatch(s) == Some(k)
  {
  }

  lemma {:induction false} ValueEndIs(s: string, j: nat, k: nat)
    requires j <= k <= |s|
    requires forall m :: j <= m < k ==> s[m] != '&'
    requires k == |s| || s[k] == '&'
    ensures ValueEnd(s, j) == k
    decreases k - j
  {
    if j < k {
      ValueEndIs(s, j + 1, k);
    }
  }

  /** Two strings that agree on their first `n` characters agree on every
      match that ends before `n`. */
  lemma SamePrefixSameMatches(s: string, r: string, n: nat)
    requires n <= |s| && n <= |r| && s[..n] == r[..n]
    ensures forall j: nat :: j + |Key| < n ==> (MatchAt(s, j) <==> MatchAt(r, j))
  {
    forall j: nat | j + |Key| < n ensures MatchAt(s, j) <==> MatchAt(r, j) {
      forall k | j <= k <= j + |Key| ensures s[k] == r[k] {
        assert s[k] == s[..n][k];
        assert r[k] == r[..n][k];
      }
      assert s[j..j + |Key|] == r[j..j + |Key|];
    }
  }

  /** The replacement keeps everything up to the end of the key and
      everything from the end of the old value. */
  lemma ReplaceShape(s: string, v: string)
    requires FirstMatch(s).Some?
    ensures var b := FirstMatch(s).value + |Key|;
            ReplaceFirst(s, v) == s[..b] + v + s[ValueEnd(s, b)..]
  {
    var i := FirstMatch(s).value;
    var b := i + |Key|;
    assert s[..b] == s[..i] + s[i..b];
  }

  /** Replacing the value by a non-empty one without `&` leaves the leftmost
      match where it was. */
  lemma ReplaceKeepsFirstMatch(s: string, v: string)
    requires Extract(s).Some?
    requires |v| > 0 && '&' !in v
    ensures FirstMatch(ReplaceFirst(s, v)) == FirstMatch(s)
  {
    var i := FirstMatch(s).value;
    var b := i + |Key|;
    var r := ReplaceFirst(s, v);
    ReplaceShape(s, v);
    assert r[..b] == s[..b];
    SamePrefixSameMatches(s, r, b);
    assert MatchAt(r, i) by {
      assert r[i..b] == r[..b][i..b] == s[..b][i..b] == s[i..b];
      assert r[b] == v[0];
    }
    FirstMatchIs(r, i);
  }

  /** The replaced value runs to the end of the new value. */
  lemma ReplacedValueEnd(s: string, v: string)
    requires Extract(s).Some?
    requires |v| > 0 && '&' !in v
    ensures FirstMatch(s).value + |Key| + |v| <= |ReplaceFirst(s, v)|
    ensures ValueEnd(ReplaceFirst(s, v), FirstMatch(s).value + |Key|) == FirstMatch(s).value + |Key| + |v|
    ensures ReplaceFirst(s, v)[FirstMatch(s).value + |Key|..FirstMatch(s).value + |Key| + |v|] == v
  {
    var b := FirstMatch(s).value + |Key|;
    var r := ReplaceFirst(s, v);
    ReplaceShape(s, v);
    assert r[b..b + |v|] == v;
    forall m | b <= m < b + |v| ensures r[m] != '&' {
      assert r[m] == v[m - b];
    }
    ValueEndIs(r, b, b + |v|);
  }

  /** After the first value is replaced by a non-empty value without `&`,
      extraction yields exactly that value. */
  lemma ExtractAfterReplace(s: string, v: string)
    requires Extract(s).Some?
    requires |v| > 0 && '&' !in v
    ensures Extract(ReplaceFirst(s, v)) == Some(v)
    ensures FirstMatch(ReplaceFirst(s, v)) == FirstMatch(s)
  {
    ReplaceKeepsFirstMatch(s, v);
    ReplacedValueEnd(s, v);
  }

  /** Writing back the value already there changes nothing. */
  lemma ReplaceWithOwnValue(s: string)
    requires Extract(s).Some?
    ensures ReplaceFirst(s, Extract(s).value) == s
  {
    var i := FirstMatch(s).value;
    var b := i + |Key|;
    var e := ValueEnd(s, b);
    ReplaceShape(s, Extract(s).value);
    assert s == s[..b] + s[b..e] + s[e..];
  }

  /** Only the last of two successive replacements is visible. */
  lemma ReplaceTwice(s: string, v: string, w: string)
    requires Extract(s).Some?
    requires |v| > 0 && '&' !in v
    ensures ReplaceFirst(ReplaceFirst(s, v), w) == ReplaceFirst(s, w)
  {
    var i := FirstMatch(s).value;
    var b := i + |Key|;
    var e := ValueEnd(s, b);
    var r := ReplaceFirst(s, v);
    ExtractAfterReplace(s, v);
    ReplaceShape(s, v);
    ReplaceShape(s, w);
    assert FirstMatch(r) == Some(i);
    assert ValueEnd(r, b) == b + |v|;
    ReplaceShape(r, w);
    assert r[..b] == s[..b];
    assert r[b + |v|..] == s[e..];
  }

  /** A string that starts with `companyID=` and a non-`&` character matches
      at index 0. */
  lemma MatchAtStart(key: string, rest: string)
    requires key == Key
    requires |rest| > 0 && rest[0] != '&'
    ensures FirstMatch(key + rest) == Some(0)
  {
    var s := key + rest;
    assert s[..|Key|] == Key;
    assert MatchAt(s, 0);
    FirstMatchIs(s, 0);
  }

  /** A query string `before + "companyID=" + value + after` whose `before`
      holds no `y` and ends in `&` (or is empty) has its leftmost match right
      after `before`: every window starting in `before` either covers a
      character of `before` where the key has its `y`, or covers the final
      `&` of `before`, which the key never contains. */
  lemma ExtractAfterPlainPrefix(before: string, value: string, after: string)
    requires 'y' !in before
    requires |before| == 0 || before[|before| - 1] == '&'
    requires |value| > 0 && '&' !in value
    requires |after| == 0 || after[0] == '&'
    ensures Extract(before + Key + value + after) == Some(value)
  {
    var s := before + Key + value + after;
    var i := |before|;
    var b := i + |Key|;
    assert s[i..b] == Key;
    assert s[b] == value[0];
    assert MatchAt(s, i);
    assert Key[6] == 'y' && '&' !in Key;
    forall j: nat | j < i ensures !MatchAt(s, j) {
      if j + |Key| < |s| {
        var w := s[j..j + |Key|];
        if j + 6 < i {
          assert w[6] == before[j + 6];
          assert before[j + 6] != 'y';
        } else {
          assert w[i - 1 - j] == before[i - 1] == '&';
        }
        assert w != Key;
      }
    }
    FirstMatchIs(s, i);
    forall m | b <= m < b + |value| ensures s[m] != '&' {
      assert s[m] == value[m - b];
    }
    ValueEndIs(s, b, b + |value|);
    assert s[b..b + |value|] == value;
  }
}
