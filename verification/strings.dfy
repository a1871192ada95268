/** The JavaScript string primitives the catalogue code relies on:
    `trim`, `toLowerCase`, `includes`, `split`, `join` and number-to-text. */
module Strings {
  import opened Results

  /* ---------------------------------------------------------------------
     trim()
     --------------------------------------------------------------------- */

  /** The characters `String.prototype.trim` strips: ECMAScript WhiteSpace
      and LineTerminator code points. */
  predicate IsSpace(c: char) {
    || c == '\t' || c == '\n' || c == '\U{000B}' || c == '\U{000C}' || c == '\r'
    || c == ' ' || c == '\U{00A0}' || c == '\U{1680}'
    || ('\U{2000}' <= c <= '\U{200A}')
    || c == '\U{2028}' || c == '\U{2029}' || c == '\U{202F}' || c == '\U{205F}'
    || c == '\U{3000}' || c == '\U{FEFF}'
  }

  /** A string that `trim()` turns into "" (so `!s.trim()` is true). */
  predicate IsBlank(s: string) {
    forall k :: 0 <= k < |s| ==> IsSpace(s[k])
  }

  function TrimStart(s: string): (r: string)
    ensures |r| <= |s| && r == s[|s| - |r|..]
    ensures forall k :: 0 <= k < |s| - |r| ==> IsSpace(s[k])
    ensures |r| > 0 ==> !IsSpace(r[0])
  {
    if |s| > 0 && IsSpace(s[0]) then TrimStart(s[1..]) else s
  }

  function TrimEnd(s: string): (r: string)
    ensures |r| <= |s| && r == s[..|r|]
    ensures forall k :: |r| <= k < |s| ==> IsSpace(s[k])
    ensures |r| > 0 ==> !IsSpace(r[|r| - 1])
  {
    if |s| > 0 && IsSpace(s[|s| - 1]) then TrimEnd(s[..|s| - 1]) else s
  }

  /** `s.trim()`: the longest slice of `s` that neither starts nor ends with
      white space; everything cut away is white space. */
  function Trim(s: string): (r: string)
    ensures exists i, j :: 0 <= i <= j <= |s| && r == s[i..j]
                           && (forall k :: 0 <= k < i ==> IsSpace(s[k]))
                           && (forall k :: j <= k < |s| ==> IsSpace(s[k]))
    ensures |r| > 0 ==> !IsSpace(r[0]) && !IsSpace(r[|r| - 1])
    ensures r == "" <==> IsBlank(s)
  {
    var t := TrimStart(s);
    var r := TrimEnd(t);
    assert r == s[|s| - |t|..|s| - |t| + |r|];
    assert |r| > 0 ==> r[0] == t[0];
    r
  }

  lemma TrimIdempotent(s: string)
    ensures Trim(Trim(s)) == Trim(s)
  {
    var r := Trim(s);
    if r != "" {
      assert TrimStart(r) == r;
      assert TrimEnd(r) == r;
    }
  }

  /* ---------------------------------------------------------------------
     toLowerCase() and includes()
     --------------------------------------------------------------------- */

  /** ASCII case folding; other characters are left as they are. */
  function LowerChar(c: char): char {
    if 'A' <= c <= 'Z' then (c as int + 32) as char else c
  }

  function Lower(s: string): string {
    seq(|s|, k requires 0 <= k < |s| => LowerChar(s[k]))
  }

  lemma LowerIdempotent(s: string)
    ensures Lower(Lower(s)) == Lower(s)
  {
  }

  /** `t` occurs in `s` starting at index `i`. */
  predicate OccursAt(s: string, t: string, i: int) {
    0 <= i && i + |t| <= |s| && s[i..i + |t|] == t
  }

  /** `s.includes(t)`. */
  predicate Contains(s: string, t: string) {
    exists i :: 0 <= i <= |s| - |t| && OccursAt(s, t, i)
  }

  /** `s.indexOf(t, k)`: the first occurrence of `t` at or after `k`. */
  function Find(s: string, t: string, k: nat): (r: Option<nat>)
    requires k <= |s|
    ensures r.Some? ==> k <= r.value && OccursAt(s, t, r.value)
    ensures r.Some? ==> forall j :: k <= j < r.value ==> !OccursAt(s, t, j)
    ensures r.None? ==> forall j :: k <= j <= |s| - |t| ==> !OccursAt(s, t, j)
    decreases |s| - k
  {
    if k + |t| > |s| then None
    else if OccursAt(s, t, k) then Some(k)
    else if k == |s| then None
    else Find(s, t, k + 1)
  }

  lemma FindNoneIffAbsent(s: string, t: string)
    ensures Find(s, t, 0).None? <==> !Contains(s, t)
  {
    if Find(s, t, 0).Some? {
      assert OccursAt(s, t, Find(s, t, 0).value);
    }
  }

  /* ---------------------------------------------------------------------
     split() and join()
     --------------------------------------------------------------------- */

  /** No proper prefix of `sep` is also a suffix of it, so an occurrence of
      `sep` cannot straddle the end of a piece and the following separator. */
  predicate BorderFree(sep: string) {
    forall d :: 0 < d < |sep| ==> sep[d..] != sep[..|sep| - d]
  }

  /** `s.split(sep)` for a non-empty separator: the pieces between the
      occurrences of `sep`, found left to right. */
  function Split(s: string, sep: string): (parts: seq<string>)
    requires |sep| > 0
    ensures |parts| > 0
    ensures forall k :: 0 <= k < |parts| ==> !Contains(parts[k], sep)
    decreases |s|
  {
    match Find(s, sep, 0)
    case None => [s]
    case Some(i) =>
      var head := s[..i];
      assert !Contains(head, sep) by {
        forall j | 0 <= j <= |head| - |sep| ensures !OccursAt(head, sep, j) {
          assert head[j..j + |sep|] == s[j..j + |sep|];
          assert !OccursAt(s, sep, j);
        }
      }
      [head] + Split(s[i + |sep|..], sep)
  }

  /** `parts.join(sep)`. */
  function Join(parts: seq<string>, sep: string): string {
    if |parts| == 0 then ""
    else if |parts| == 1 then parts[0]
    else Join(parts[..|parts| - 1], sep) + sep + parts[|parts| - 1]
  }

  lemma {:induction false} JoinCons(p: string, ps: seq<string>, sep: string)
    ensures Join([p] + ps, sep) == if |ps| == 0 then p else p + sep + Join(ps, sep)
    decreases |ps|
  {
    if |ps| == 0 {
      assert [p] + ps == [p];
    } else if |ps| == 1 {
      assert ([p] + ps)[..1] == [p];
    } else {
      var q, init, last := [p] + ps, ps[..|ps| - 1], ps[|ps| - 1];
      assert q[..|q| - 1] == [p] + init && q[|q| - 1] == last;
      JoinCons(p, init, sep);
      calc {
        Join(q, sep);
        Join([p] + init, sep) + sep + last;
        p + sep + Join(init, sep) + sep + last;
        p + sep + (Join(init, sep) + sep + last);
        p + sep + Join(ps, sep);
      }
    }
  }

  /** Joining the pieces of a split gives back the original string. */
  lemma {:induction false} JoinSplit(s: string, sep: string)
    requires |sep| > 0
    ensures Join(Split(s, sep), sep) == s
    decreases |s|
  {
    match Find(s, sep, 0)
    case None =>
    case Some(i) =>
      var rest := s[i + |sep|..];
      JoinSplit(rest, sep);
      JoinCons(s[..i], Split(rest, sep), sep);
      assert s == s[..i] + s[i..i + |sep|] + rest;
  }

  /** An occurrence with none before it is what `Find` reports. */
  lemma FindFirst(s: string, t: string, i: nat)
    requires OccursAt(s, t, i)
    requires forall j :: 0 <= j < i ==> !OccursAt(s, t, j)
    ensures Find(s, t, 0) == Some(i)
  {
  }

  /** When `a` holds no separator, the first one in `a + sep + g` is the
      appended one: a border-free separator cannot straddle the seam. */
  lemma FindAfterClean(a: string, g: string, sep: string)
    requires |sep| > 0 && BorderFree(sep) && Find(a, sep, 0).None?
    ensures Find(a + sep + g, sep, 0) == Some(|a|)
  {
    var s := a + sep + g;
    assert OccursAt(s, sep, |a|) by { assert s[|a|..|a| + |sep|] == sep; }
    forall j | 0 <= j < |a| ensures !OccursAt(s, sep, j) {
      if j + |sep| <= |a| {
        assert s[j..j + |sep|] == a[j..j + |sep|];
        assert !OccursAt(a, sep, j);
      } else {
        // the window at `j` straddles the seam: its tail is a prefix of `sep`
        var d := |a| - j;
        var w := s[j..j + |sep|];
        assert w[d..] == sep[..|sep| - d] by {
          forall t | 0 <= t < |sep| - d ensures w[d..][t] == sep[..|sep| - d][t] {
            assert w[d + t] == s[|a| + t];
          }
        }
        assert sep[d..] != sep[..|sep| - d];
        assert w != sep;
      }
    }
    FindFirst(s, sep, |a|);
  }

  /** A separator already in `a` is still the first one after appending. */
  lemma FindBeforeAppend(a: string, g: string, sep: string, i: nat)
    requires Find(a, sep, 0) == Some(i)
    ensures Find(a + sep + g, sep, 0) == Some(i)
  {
    var s := a + sep + g;
    assert OccursAt(s, sep, i) by { assert s[i..i + |sep|] == a[i..i + |sep|]; }
    forall j | 0 <= j < i ensures !OccursAt(s, sep, j) {
      assert s[j..j + |sep|] == a[j..j + |sep|];
      assert !OccursAt(a, sep, j);
    }
    FindFirst(s, sep, i);
  }

  /** `Split` with no separator in the text. */
  lemma SplitNone(s: string, sep: string)
    requires |sep| > 0 && Find(s, sep, 0).None?
    ensures Split(s, sep) == [s]
  {
  }

  /** `Split` at the first separator. */
  lemma SplitSome(s: string, sep: string, i: nat)
    requires |sep| > 0 && Find(s, sep, 0) == Some(i)
    ensures i + |sep| <= |s|
    ensures Split(s, sep) == [s[..i]] + Split(s[i + |sep|..], sep)
  {
  }

  /** The split of `a + sep + g` when `a` holds no separator. */
  lemma SplitAppendClean(a: string, g: string, sep: string)
    requires |sep| > 0 && BorderFree(sep) && Find(a, sep, 0).None? && !Contains(g, sep)
    ensures Split(a + sep + g, sep) == [a, g]
  {
    var s := a + sep + g;
    FindNoneIffAbsent(g, sep);
    SplitNone(g, sep);
    FindAfterClean(a, g, sep);
    SplitSome(s, sep, |a|);
    assert s[..|a|] == a;
    assert s[|a| + |sep|..] == g;
  }

  lemma AppendSlices(a: string, g: string, sep: string, i: nat)
    requires i + |sep| <= |a|
    ensures (a + sep + g)[..i] == a[..i]
    ensures (a + sep + g)[i + |sep|..] == a[i + |sep|..] + sep + g
  {
  }

  /** Appending `sep + g` to a string adds exactly one piece, `g`, to its split. */
  lemma {:induction false} SplitAppend(a: string, g: string, sep: string)
    requires |sep| > 0 && BorderFree(sep) && !Contains(g, sep)
    ensures Split(a + sep + g, sep) == Split(a, sep) + [g]
    decreases |a|
  {
    match Find(a, sep, 0)
    case None =>
      SplitAppendClean(a, g, sep);
      SplitNone(a, sep);
    case Some(i) =>
      var s, a' := a + sep + g, a[i + |sep|..];
      FindBeforeAppend(a, g, sep, i);
      SplitSome(s, sep, i);
      SplitSome(a, sep, i);
      AppendSlices(a, g, sep, i);
      SplitAppend(a', g, sep);
      calc {
        Split(s, sep);
        [a[..i]] + Split(a' + sep + g, sep);
        [a[..i]] + (Split(a', sep) + [g]);
        ([a[..i]] + Split(a', sep)) + [g];
      }
  }

  /** A join is at least as long as its first piece. */
  lemma {:induction false} JoinCoversFirst(parts: seq<string>, sep: string)
    requires |parts| > 0
    ensures |Join(parts, sep)| >= |parts[0]|
    decreases |parts|
  {
    if |parts| > 1 {
      JoinCoversFirst(parts[..|parts| - 1], sep);
    }
  }

  /** Every piece of a join occurs in it. */
  lemma {:induction false} JoinShowsParts(parts: seq<string>, sep: string)
    ensures forall k :: 0 <= k < |parts| ==> Contains(Join(parts, sep), parts[k])
    decreases |parts|
  {
    if |parts| == 1 {
      assert OccursAt(parts[0], parts[0], 0) by { assert parts[0][0..|parts[0]|] == parts[0]; }
    } else if |parts| > 1 {
      var init, last := parts[..|parts| - 1], parts[|parts| - 1];
      var prefix := Join(init, sep) + sep;
      var s := prefix + last;
      assert s == Join(parts, sep);
      JoinShowsParts(init, sep);
      forall k | 0 <= k < |parts| ensures Contains(s, parts[k]) {
        if k == |parts| - 1 {
          assert s[|prefix|..|prefix| + |last|] == last;
          assert OccursAt(s, last, |prefix|);
        } else {
          assert parts[k] == init[k];
          var i :| 0 <= i <= |Join(init, sep)| - |init[k]| && OccursAt(Join(init, sep), init[k], i);
          assert s[i..i + |init[k]|] == Join(init, sep)[i..i + |init[k]|];
          assert OccursAt(s, parts[k], i);
        }
      }
    }
  }

  /** Splitting a join gives back the pieces, provided none of them contains
      the (border-free) separator. */
  lemma {:induction false} SplitJoin(parts: seq<string>, sep: string)
    requires |sep| > 0 && BorderFree(sep) && |parts| > 0
    requires forall k :: 0 <= k < |parts| ==> !Contains(parts[k], sep)
    ensures Split(Join(parts, sep), sep) == parts
    decreases |parts|
  {
    if |parts| == 1 {
      FindNoneIffAbsent(parts[0], sep);
    } else {
      var init, last := parts[..|parts| - 1], parts[|parts| - 1];
      assert forall k :: 0 <= k < |init| ==> init[k] == parts[k];
      SplitJoin(init, sep);
      assert !Contains(last, sep);
      SplitAppend(Join(init, sep), last, sep);
      assert Join(parts, sep) == Join(init, sep) + sep + last;
      assert parts == init + [last];
    }
  }

  /* ---------------------------------------------------------------------
     Number to decimal text
     --------------------------------------------------------------------- */

  predicate IsDigit(c: char) { '0' <= c <= '9' }

  predicate AllDigits(s: string) {
    forall k :: 0 <= k < |s| ==> IsDigit(s[k])
  }

  function DigitChar(d: int): char
    requires 0 <= d < 10
  {
    ('0' as int + d) as char
  }

  /** Decimal text of a non-negative integer, as `String(n)` writes it. */
  function NatToString(n: nat): (r: string)
    ensures |r| > 0 && AllDigits(r)
    ensures n >= 10 ==> r[0] != '0'
  {
    if n < 10 then [DigitChar(n)] else NatToString(n / 10) + [DigitChar(n % 10)]
  }

  /** Decimal text of any integer (a leading '-' for negatives). */
  function IntToString(i: int): string {
    if i < 0 then "-" + NatToString(-i) else NatToString(i)
  }

  /** The value of a string of decimal digits. */
  function DigitsValue(s: string): nat
    requires AllDigits(s)
  {
    if |s| == 0 then 0 else DigitsValue(s[..|s| - 1]) * 10 + (s[|s| - 1] as int - '0' as int)
  }

  lemma {:induction false} NatToStringRoundTrip(n: nat)
    ensures DigitsValue(NatToString(n)) == n
  {
    if n >= 10 {
      NatToStringRoundTrip(n / 10);
      var r := NatToString(n);
      assert r[..|r| - 1] == NatToString(n / 10);
    }
  }

  lemma NatToStringInjective(m: nat, n: nat)
    requires NatToString(m) == NatToString(n)
    ensures m == n
  {
    NatToStringRoundTrip(m);
    NatToStringRoundTrip(n);
  }
}
