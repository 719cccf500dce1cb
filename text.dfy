/**
 * The parts of Go's `strings` and `strconv` packages that the programs use,
 * over `string` = `seq<char>`. White space is a fixed set (the ASCII spaces
 * U+0009..U+000D and U+0020, plus U+0085 and U+00A0); case mapping is ASCII.
 */
module Text {
  import opened Wrappers

  /** The characters `strings.TrimSpace` removes in this model. */
  predicate IsSpace(c: char) {
    c == ' ' || c == '\t' || c == '\n' || c == '\r' || c == '\U{000B}' || c == '\U{000C}'
    || c == '\U{0085}' || c == '\U{00A0}'
  }

  predicate AllSpace(s: string) {
    forall i :: 0 <= i < |s| ==> IsSpace(s[i])
  }

  /** Neither the first nor the last character is white space. */
  predicate NoOuterSpace(s: string) {
    s == [] || (!IsSpace(s[0]) && !IsSpace(s[|s| - 1]))
  }

  /** Drops the leading white space: what remains starts with a non-space and ends where `s` ends. */
  function TrimLeft(s: string): (r: string)
    ensures |r| <= |s|
    ensures r == [] || (!IsSpace(r[0]) && r[|r| - 1] == s[|s| - 1])
  {
    if |s| > 0 && IsSpace(s[0]) then TrimLeft(s[1..]) else s
  }

  /** Drops the trailing white space: what remains ends with a non-space and starts where `s` starts. */
  function TrimRight(s: string): (r: string)
    ensures |r| <= |s|
    ensures r == [] || (!IsSpace(r[|r| - 1]) && r[0] == s[0])
  {
    if |s| > 0 && IsSpace(s[|s| - 1]) then TrimRight(s[..|s| - 1]) else s
  }

  /** What `TrimLeft` keeps is a suffix of `s`, and everything before it is white space. */
  lemma {:induction false} TrimLeftSuffix(s: string)
    ensures forall i :: 0 <= i < |TrimLeft(s)| ==> TrimLeft(s)[i] == s[|s| - |TrimLeft(s)| + i]
    ensures forall i :: 0 <= i < |s| - |TrimLeft(s)| ==> IsSpace(s[i])
    decreases |s|
  {
    if |s| > 0 && IsSpace(s[0]) {
      TrimLeftSuffix(s[1..]);
      assert forall i :: 1 <= i < |s| ==> s[1..][i - 1] == s[i];
    }
  }

  /** What `TrimRight` keeps is a prefix of `s`, and everything after it is white space. */
  lemma {:induction false} TrimRightPrefix(s: string)
    ensures forall i :: 0 <= i < |TrimRight(s)| ==> TrimRight(s)[i] == s[i]
    ensures forall i :: |TrimRight(s)| <= i < |s| ==> IsSpace(s[i])
    decreases |s|
  {
    if |s| > 0 && IsSpace(s[|s| - 1]) {
      TrimRightPrefix(s[..|s| - 1]);
    }
  }

  /** `strings.TrimSpace`. */
  function TrimSpace(s: string): (r: string)
    ensures NoOuterSpace(r)
    ensures |r| <= |s|
  {
    TrimRight(TrimLeft(s))
  }

  lemma {:induction false} TrimLeftPadded(pre: string, mid: string)
    requires AllSpace(pre) && (mid == [] || !IsSpace(mid[0]))
    ensures TrimLeft(pre + mid) == mid
    decreases |pre|
  {
    if pre != [] {
      assert (pre + mid)[1..] == pre[1..] + mid;
      TrimLeftPadded(pre[1..], mid);
    } else {
      assert pre + mid == mid;
    }
  }

  lemma {:induction false} TrimRightPadded(mid: string, post: string)
    requires AllSpace(post) && (mid == [] || !IsSpace(mid[|mid| - 1]))
    ensures TrimRight(mid + post) == mid
    decreases |post|
  {
    if post != [] {
      assert (mid + post)[..|mid + post| - 1] == mid + post[..|post| - 1];
      TrimRightPadded(mid, post[..|post| - 1]);
    } else {
      assert mid + post == mid;
    }
  }

  /**
   * The characterisation of `TrimSpace`: white space around a core that has
   * none at its ends is removed, and exactly that core remains.
   */
  lemma TrimSpacePadded(pre: string, mid: string, post: string)
    requires AllSpace(pre) && AllSpace(post) && NoOuterSpace(mid)
    ensures TrimSpace(pre + mid + post) == mid
  {
    assert pre + mid + post == pre + (mid + post);
    if mid == [] {
      assert AllSpace(mid + post);
      TrimLeftPadded(pre, []);
      assert mid + post == post;
      assert TrimLeft(pre + post + []) == [] by {
        assert AllSpace(pre + post);
        TrimLeftPadded(pre + post, []);
        assert pre + post + [] == pre + post;
      }
      assert pre + mid + post == pre + post + [];
    } else {
      assert (mid + post)[0] == mid[0];
      TrimLeftPadded(pre, mid + post);
      TrimRightPadded(mid, post);
    }
  }

  /** A string without outer white space is left as it is. */
  lemma TrimSpaceOfTrimmed(s: string)
    requires NoOuterSpace(s)
    ensures TrimSpace(s) == s
  {
    TrimSpacePadded([], s, []);
    assert [] + s + [] == s;
  }

  /** Trimming twice is trimming once. */
  lemma TrimSpaceIdempotent(s: string)
    ensures TrimSpace(TrimSpace(s)) == TrimSpace(s)
  {
    var t := TrimSpace(s);
    TrimSpacePadded([], t, []);
    assert [] + t + [] == t;
  }

  /** `strings.HasPrefix`. */
  function HasPrefix(s: string, prefix: string): (r: bool)
    ensures r <==> prefix <= s
  {
    |s| >= |prefix| && s[..|prefix|] == prefix
  }

  /** Two strings that differ at an index inside both do not extend one another. */
  lemma NotPrefixAt(s: string, prefix: string, i: int)
    requires 0 <= i < |prefix| && i < |s| && s[i] != prefix[i]
    ensures !HasPrefix(s, prefix)
  {
    if |s| >= |prefix| {
      assert s[..|prefix|][i] == s[i];
    }
  }

  /** `strings.HasSuffix`. */
  function HasSuffix(s: string, suffix: string): (r: bool)
    ensures r <==> (|suffix| <= |s| && s[|s| - |suffix|..] == suffix)
  {
    |s| >= |suffix| && s[|s| - |suffix|..] == suffix
  }

  /** `strings.TrimSuffix`: removes one occurrence of `suffix` at the end, if there is one. */
  function TrimSuffix(s: string, suffix: string): (r: string)
    ensures HasSuffix(s, suffix) ==> r + suffix == s
    ensures !HasSuffix(s, suffix) ==> r == s
  {
    if HasSuffix(s, suffix) then s[..|s| - |suffix|] else s
  }

  /** `sub` occurs in `s` starting at index `i`. */
  predicate OccursAt(s: string, sub: string, i: int) {
    0 <= i <= |s| - |sub| && s[i..i + |sub|] == sub
  }

  /** `strings.Contains`: `sub` occurs somewhere in `s`. */
  function Contains(s: string, sub: string): (r: bool)
    ensures r <==> exists i :: OccursAt(s, sub, i)
    decreases |s|
  {
    if HasPrefix(s, sub) then
      assert OccursAt(s, sub, 0);
      true
    else if |s| == 0 then
      assert forall i :: !OccursAt(s, sub, i);
      false
    else
      var rest := Contains(s[1..], sub);
      assert rest ==> exists i :: OccursAt(s, sub, i) by {
        if rest {
          var j :| OccursAt(s[1..], sub, j);
          assert s[j + 1..j + 1 + |sub|] == s[1..][j..j + |sub|];
          assert OccursAt(s, sub, j + 1);
        }
      }
      assert (exists i :: OccursAt(s, sub, i)) ==> rest by {
        if exists i :: OccursAt(s, sub, i) {
          var i :| OccursAt(s, sub, i);
          assert i != 0;
          assert s[1..][i - 1..i - 1 + |sub|] == s[i..i + |sub|];
          assert OccursAt(s[1..], sub, i - 1);
        }
      }
      rest
  }

  /** `unicode.ToLower` restricted to ASCII. */
  function LowerChar(c: char): (r: char)
    ensures 'A' <= c <= 'Z' ==> 'a' <= r <= 'z'
    ensures !('A' <= c <= 'Z') ==> r == c
  {
    if 'A' <= c <= 'Z' then (c as int + 32) as char else c
  }

  /** `strings.ToLower`, character by character. */
  function ToLower(s: string): (r: string)
    ensures |r| == |s|
    ensures forall i :: 0 <= i < |s| ==> r[i] == LowerChar(s[i])
  {
    seq(|s|, i requires 0 <= i < |s| => LowerChar(s[i]))
  }

  /** No ASCII capital letter. */
  predicate IsLower(s: string) {
    forall i :: 0 <= i < |s| ==> !('A' <= s[i] <= 'Z')
  }

  lemma ToLowerIsLower(s: string)
    ensures IsLower(ToLower(s))
    ensures IsLower(s) ==> ToLower(s) == s
  {
  }

  predicate IsDigit(c: char) {
    '0' <= c <= '9'
  }

  /** The value of a non-empty run of decimal digits. */
  function DigitsValue(s: string): (n: nat)
    requires forall i :: 0 <= i < |s| ==> IsDigit(s[i])
  {
    if s == [] then 0 else
      assert IsDigit(s[|s| - 1]);
      var d: nat := s[|s| - 1] as int - '0' as int;
      10 * DigitsValue(s[..|s| - 1]) + d
  }

  /** The decimal form of `n`, without leading zeros (`strconv.Itoa` for a `nat`). */
  function NatToString(n: nat): (s: string)
    ensures |s| >= 1 && forall i :: 0 <= i < |s| ==> IsDigit(s[i])
    ensures DigitsValue(s) == n
  {
    var d := [('0' as int + n % 10) as char];
    if n < 10 then d else NatToString(n / 10) + d
  }

  /**
   * `strconv.Atoi` on the values it accepts: an optional `+` or `-` sign
   * followed by one or more decimal digits and nothing else. Anything else
   * (the empty string, spaces, letters) is an error, here `None`.
   */
  function Atoi(s: string): (r: Option<int>)
    ensures r.Some? <==>
      (var body := if |s| > 0 && (s[0] == '+' || s[0] == '-') then s[1..] else s;
       |body| > 0 && forall i :: 0 <= i < |body| ==> IsDigit(body[i]))
  {
    var negative := |s| > 0 && s[0] == '-';
    var body := if |s| > 0 && (s[0] == '+' || s[0] == '-') then s[1..] else s;
    if |body| > 0 && forall i :: 0 <= i < |body| ==> IsDigit(body[i]) then
      var v: int := DigitsValue(body);
      Some(if negative then -v else v)
    else
      None
  }

  /** `strconv.Atoi` gives back the number that `NatToString` wrote. */
  lemma AtoiNatToString(n: nat)
    ensures Atoi(NatToString(n)) == Some(n)
  {
    var s := NatToString(n);
    assert s[0] != '+' && s[0] != '-' by { assert IsDigit(s[0]); }
  }
}
