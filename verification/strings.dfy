/** Python `str` operations the downloader relies on, over `seq<char>`:
    `in`, `find`/`rfind`, `startswith`/`endswith`, `split`, `join`,
    `strip`/`lstrip`/`rstrip` of one character, ASCII `lower()` and the
    decimal rendering of a natural number (`f"{n}"`). */
module Strings {

  /** `t` occurs in `s` starting at index `i`. */
  predicate OccursAt(s: string, t: string, i: int) {
    0 <= i && i + |t| <= |s| && s[i..i + |t|] == t
  }

  /** Python's `t in s`. */
  predicate Contains(s: string, t: string) {
    exists i | 0 <= i <= |s| - |t| :: OccursAt(s, t, i)
  }

  predicate StartsWith(s: string, p: string) {
    |p| <= |s| && s[..|p|] == p
  }

  predicate EndsWith(s: string, p: string) {
    |p| <= |s| && s[|s| - |p|..] == p
  }

  /** No character of `s` is in `cs`. */
  predicate NoneIn(s: string, cs: set<char>) {
    forall i :: 0 <= i < |s| ==> s[i] !in cs
  }

  /** Python's `s.find(t, i)`: the first occurrence at or after `i`, or -1. */
  function FindFrom(s: string, t: string, i: nat): (r: int)
    ensures r == -1 || (i <= r && OccursAt(s, t, r))
    ensures r == -1 ==> forall j :: i <= j ==> !OccursAt(s, t, j)
    ensures r != -1 ==> forall j :: i <= j < r ==> !OccursAt(s, t, j)
    decreases |s| - i
  {
    if i + |t| > |s| then -1
    else if s[i..i + |t|] == t then i
    else FindFrom(s, t, i + 1)
  }

  /** Python's `s.find(t)`. */
  function Find(s: string, t: string): (r: int)
    ensures r == -1 <==> !Contains(s, t)
    ensures r != -1 ==> OccursAt(s, t, r)
    ensures forall j :: 0 <= j < r ==> !OccursAt(s, t, j)
  {
    FindFrom(s, t, 0)
  }

  /** The last occurrence of `t` in `s` at an index no greater than `i`, or -1. */
  function RFindFrom(s: string, t: string, i: int): (r: int)
    ensures r == -1 || (0 <= r <= i && OccursAt(s, t, r))
    ensures forall j :: r < j <= i ==> !OccursAt(s, t, j)
    decreases if i < 0 then 0 else i + 1
  {
    if i < 0 then -1
    else if OccursAt(s, t, i) then i
    else RFindFrom(s, t, i - 1)
  }

  /** Python's `s.rfind(t)`. */
  function RFind(s: string, t: string): (r: int)
    ensures r == -1 <==> !Contains(s, t)
    ensures r != -1 ==> OccursAt(s, t, r)
    ensures forall j :: r < j ==> !OccursAt(s, t, j)
  {
    RFindFrom(s, t, |s| - |t|)
  }

  /** A one-character needle occurs exactly where that character is. */
  lemma OccursAtChar(s: string, c: char, i: int)
    ensures OccursAt(s, [c], i) <==> 0 <= i < |s| && s[i] == c
  {
    if 0 <= i < |s| {
      assert s[i..i + 1] == [s[i]];
    }
  }

  /** The index of the first character of `s` from `k` on that is in `cs`, or `|s|`. */
  function FirstInFrom(s: string, cs: set<char>, k: nat): (i: nat)
    requires k <= |s|
    ensures k <= i <= |s|
    ensures i < |s| ==> s[i] in cs
    ensures forall j :: k <= j < i ==> s[j] !in cs
    decreases |s| - k
  {
    if k == |s| || s[k] in cs then k else FirstInFrom(s, cs, k + 1)
  }

  /** The index of the first character of `s` that is in `cs`, or `|s|`. */
  function FirstIn(s: string, cs: set<char>): (i: nat)
    ensures i <= |s|
    ensures i < |s| ==> s[i] in cs
    ensures forall j :: 0 <= j < i ==> s[j] !in cs
  {
    FirstInFrom(s, cs, 0)
  }

  /** `FirstIn` is determined by its contract. */
  lemma FirstInUnique(s: string, cs: set<char>, i: nat)
    requires i <= |s|
    requires i < |s| ==> s[i] in cs
    requires forall j :: 0 <= j < i ==> s[j] !in cs
    ensures FirstIn(s, cs) == i
  {
  }

  /** Searching a concatenation finds the first hit in the left part, if any,
      and otherwise continues into the right part. */
  lemma FirstInConcat(a: string, b: string, cs: set<char>)
    ensures FirstIn(a + b, cs)
            == if FirstIn(a, cs) < |a| then FirstIn(a, cs) else |a| + FirstIn(b, cs)
  {
    var fa := FirstIn(a, cs);
    var ab := a + b;
    if fa < |a| {
      assert ab[fa] == a[fa];
      forall j | 0 <= j < fa ensures ab[j] !in cs {
        assert ab[j] == a[j];
      }
      FirstInUnique(ab, cs, fa);
    } else {
      var fb := FirstIn(b, cs);
      forall j | 0 <= j < |a| + fb ensures ab[j] !in cs {
        if j < |a| {
          assert ab[j] == a[j];
        } else {
          assert ab[j] == b[j - |a|];
        }
      }
      if fb < |b| {
        assert ab[|a| + fb] == b[fb];
      }
      FirstInUnique(ab, cs, |a| + fb);
    }
  }

  /** The index of the last `c` among the first `n` characters of `s`, or -1. */
  function LastOfBelow(s: string, c: char, n: nat): (r: int)
    requires n <= |s|
    ensures -1 <= r < n
    ensures r >= 0 ==> s[r] == c
    ensures forall j :: r < j < n ==> s[j] != c
  {
    if n == 0 then -1
    else if s[n - 1] == c then n - 1
    else LastOfBelow(s, c, n - 1)
  }

  /** Python's `s.rfind(c)` for a single character. */
  function LastOf(s: string, c: char): (r: int)
    ensures -1 <= r < |s|
    ensures r >= 0 ==> s[r] == c
    ensures forall j :: r < j < |s| ==> s[j] != c
  {
    LastOfBelow(s, c, |s|)
  }

  /** `LastOf` is determined by its contract. */
  lemma LastOfUnique(s: string, c: char, r: int)
    requires -1 <= r < |s|
    requires r >= 0 ==> s[r] == c
    requires forall j :: r < j < |s| ==> s[j] != c
    ensures LastOf(s, c) == r
  {
  }

  /** Python's `s.split(sep)` for a non-empty separator: the pieces between
      the non-overlapping occurrences found from left to right. */
  function Split(s: string, sep: string): (parts: seq<string>)
    requires |sep| > 0
    ensures |parts| >= 1
    ensures forall k :: 0 <= k < |parts| ==> !Contains(parts[k], sep)
    decreases |s|
  {
    var i := Find(s, sep);
    if i < 0 then [s]
    else
      var head := s[..i];
      assert !Contains(head, sep) by {
        forall j | 0 <= j <= |head| - |sep| ensures !OccursAt(head, sep, j) {
          if OccursAt(head, sep, j) {
            assert head[j..j + |sep|] == s[j..j + |sep|];
            assert OccursAt(s, sep, j) && j < i;
          }
        }
      }
      [head] + Split(s[i + |sep|..], sep)
  }

  /** The first piece of a split is the text before the first occurrence. */
  lemma SplitHead(s: string, sep: string)
    requires |sep| > 0
    ensures Split(s, sep)[0] == if Find(s, sep) < 0 then s else s[..Find(s, sep)]
  {
  }

  /** `last` is a suffix of `s`: the whole of `s` when the separator does not
      occur, and otherwise preceded by an occurrence of it. */
  predicate EndPiece(s: string, sep: string, last: string) {
    && |last| <= |s| && last == s[|s| - |last|..]
    && (!Contains(s, sep) ==> last == s)
    && (Contains(s, sep) ==> |last| + |sep| <= |s| && OccursAt(s, sep, |s| - |last| - |sep|))
  }

  /** The last piece of a split is an end piece of `s`. */
  lemma {:induction false} LastPiece(s: string, sep: string)
    requires |sep| > 0
    ensures EndPiece(s, sep, Split(s, sep)[|Split(s, sep)| - 1])
    decreases |s|
  {
    var i := Find(s, sep);
    if i < 0 {
      SplitWhole(s, sep);
    } else {
      SplitUnfold(s, sep);
      var rest := s[i + |sep|..];
      LastPiece(rest, sep);
      var q := Split(rest, sep);
      LastPieceStep(s, sep, i, q[|q| - 1]);
    }
  }

  /** Without the separator, the split is the whole string, which is its own end piece. */
  lemma SplitWhole(s: string, sep: string)
    requires |sep| > 0 && Find(s, sep) < 0
    ensures Split(s, sep) == [s] && EndPiece(s, sep, s)
  {
    assert s[|s| - |s|..] == s;
  }

  /** One step of a split at the first occurrence of the separator. */
  lemma SplitUnfold(s: string, sep: string)
    requires |sep| > 0 && Find(s, sep) >= 0
    ensures var i := Find(s, sep); var parts := Split(s, sep);
      && Contains(s, sep) && i + |sep| <= |s|
      && parts == [s[..i]] + Split(s[i + |sep|..], sep)
      && parts[|parts| - 1] == Split(s[i + |sep|..], sep)[|Split(s[i + |sep|..], sep)| - 1]
  {
  }

  lemma {:induction false} LastPieceStep(s: string, sep: string, i: nat, last: string)
    requires OccursAt(s, sep, i)
    requires EndPiece(s[i + |sep|..], sep, last)
    ensures EndPiece(s, sep, last)
  {
    var d := i + |sep|;
    SuffixOfSuffix(s, d, |last|);
    assert Contains(s, sep) by { assert OccursAt(s, sep, i); }
    if Contains(s[d..], sep) {
      OccursInSuffix(s, sep, d, |s| - d - |last| - |sep|);
    }
  }

  /** A suffix of a suffix of `s` is a suffix of `s`. */
  lemma SuffixOfSuffix(s: string, d: nat, n: nat)
    requires d <= |s| && n <= |s| - d
    ensures s[d..][|s| - d - n..] == s[|s| - n..]
  {
  }

  /** An occurrence inside a suffix of `s` is an occurrence in `s`, shifted. */
  lemma OccursInSuffix(s: string, t: string, d: nat, k: int)
    requires d <= |s| && OccursAt(s[d..], t, k)
    ensures OccursAt(s, t, d + k)
  {
    assert s[d..][k..k + |t|] == s[d + k..d + k + |t|];
  }

  /** For a separator whose occurrences cannot overlap, the last piece of a
      split is the text after the separator's last occurrence. */
  lemma {:induction false} AfterLastOccurrence(s: string, t: string)
    requires UniqueHead(t) && Contains(s, t)
    ensures 0 <= RFind(s, t) + |t| <= |s|
    ensures s[RFind(s, t) + |t|..] == Split(s, t)[|Split(s, t)| - 1]
    ensures !Contains(Split(s, t)[|Split(s, t)| - 1], t)
  {
    LastPiece(s, t);
    EndPieceAfterLast(s, t, Split(s, t)[|Split(s, t)| - 1]);
  }

  /** An end piece without `t` starts right after the last occurrence of `t`. */
  lemma {:induction false} EndPieceAfterLast(s: string, t: string, tail: string)
    requires UniqueHead(t) && Contains(s, t)
    requires EndPiece(s, t, tail) && !Contains(tail, t)
    ensures 0 <= RFind(s, t) + |t| <= |s| && s[RFind(s, t) + |t|..] == tail
  {
    var p := |s| - |tail|;
    RFindLast(s, t, p - |t|);
  }

  /** A prefix of a string without `t` has no `t` either. */
  lemma PrefixKeepsAbsence(s: string, n: nat, t: string)
    requires n <= |s| && !Contains(s, t)
    ensures !Contains(s[..n], t)
  {
    forall j | 0 <= j <= n - |t| ensures !OccursAt(s[..n], t, j) {
      if OccursAt(s[..n], t, j) {
        assert s[..n][j..j + |t|] == s[j..j + |t|];
        assert OccursAt(s, t, j);
      }
    }
  }

  /** The first character of `t` occurs nowhere else in `t`, so two
      occurrences of `t` can never overlap. */
  predicate UniqueHead(t: string) {
    |t| > 0 && forall k :: 0 < k < |t| ==> t[k] != t[0]
  }

  /** An occurrence of a `UniqueHead` needle followed by text without the
      needle is its last occurrence. */
  lemma RFindLast(s: string, t: string, p: nat)
    requires UniqueHead(t) && OccursAt(s, t, p)
    requires !Contains(s[p + |t|..], t)
    ensures RFind(s, t) == p
  {
    forall j | p < j ensures !OccursAt(s, t, j) {
      NoLaterOccurrence(s, t, p, j);
    }
  }

  lemma NoLaterOccurrence(s: string, t: string, p: nat, j: int)
    requires UniqueHead(t) && OccursAt(s, t, p)
    requires !Contains(s[p + |t|..], t)
    requires p < j
    ensures !OccursAt(s, t, j)
  {
    if OccursAt(s, t, j) {
      if j < p + |t| {
        OverlapHead(s, t, p, j);
      } else {
        var rest := s[p + |t|..];
        assert rest[j - p - |t|..j - p] == s[j..j + |t|];
        assert OccursAt(rest, t, j - p - |t|);
      }
    }
  }

  /** Two overlapping occurrences of `t` put its first character inside it. */
  lemma OverlapHead(s: string, t: string, p: nat, j: int)
    requires OccursAt(s, t, p) && OccursAt(s, t, j) && p < j < p + |t|
    ensures t[j - p] == t[0]
  {
    assert s[j] == t[j - p];
    assert s[j] == t[0];
  }

  /** Python's `sep.join(parts)`. */
  function Join(parts: seq<string>, sep: string): string
  {
    if |parts| == 0 then ""
    else if |parts| == 1 then parts[0]
    else parts[0] + sep + Join(parts[1..], sep)
  }

  /** A string without the one-character needle `[c]` has no `c` at all. */
  lemma NotContainsChar(s: string, c: char)
    requires !Contains(s, [c])
    ensures forall j :: 0 <= j < |s| ==> s[j] != c
  {
    forall j | 0 <= j < |s| ensures s[j] != c {
      OccursAtChar(s, c, j);
    }
  }

  /** The last `c` of `s`, given a `c` at `i`, lies at `i` or in the rest after it. */
  lemma LastOfAfter(s: string, c: char, i: nat)
    requires i < |s| && s[i] == c
    ensures var l := LastOf(s[i + 1..], c);
      LastOf(s, c) == if l >= 0 then i + 1 + l else i
  {
    var rest := s[i + 1..];
    var l := LastOf(rest, c);
    var r := if l >= 0 then i + 1 + l else i;
    forall j | r < j < |s| ensures s[j] != c {
      assert s[j] == rest[j - i - 1];
    }
    LastOfUnique(s, c, r);
  }

  lemma JoinCons(a: string, tail: seq<string>, sep: string)
    requires |tail| >= 1
    ensures Join([a] + tail, sep) == a + sep + Join(tail, sep)
  {
    var xs := [a] + tail;
    assert xs[0] == a && xs[1..] == tail;
  }

  /** One step of `split` on a one-character separator that occurs. */
  lemma SplitStep(s: string, c: char)
    requires Find(s, [c]) >= 0
    ensures var i := Find(s, [c]);
      0 <= i < |s| && s[i] == c && Split(s, [c]) == [s[..i]] + Split(s[i + 1..], [c])
  {
    OccursAtChar(s, c, Find(s, [c]));
  }

  /** `split` on a one-character separator that does not occur yields one piece. */
  lemma SplitNone(s: string, c: char)
    requires Find(s, [c]) < 0
    ensures Split(s, [c]) == [s] && LastOf(s, c) == -1
  {
    if LastOf(s, c) >= 0 {
      OccursAtChar(s, c, LastOf(s, c));
    }
  }

  lemma InitCons<T>(a: T, q: seq<T>)
    requires |q| >= 1
    ensures ([a] + q)[..|q|] == [a] + q[..|q| - 1]
  {
  }

  lemma SliceAround(s: string, i: nat, l: nat)
    requires i < |s| && i + 1 + l <= |s|
    ensures s[..i] + [s[i]] + s[i + 1..][..l] == s[..i + 1 + l]
  {
  }

  /** Joining all but the last piece of `s.split(c)` with `c` gives the text
      before the last `c` (or nothing when `s` has no `c`). */
  lemma {:induction false} JoinAllButLast(s: string, c: char)
    ensures Join(Split(s, [c])[..|Split(s, [c])| - 1], [c]) == if LastOf(s, c) >= 0 then s[..LastOf(s, c)] else ""
    decreases |s|, 1
  {
    if Find(s, [c]) < 0 {
      SplitNone(s, c);
    } else {
      JoinAllButLastFound(s, c);
    }
  }

  /** `JoinAllButLast` when `c` occurs in `s`. */
  lemma {:induction false} JoinAllButLastFound(s: string, c: char)
    requires Find(s, [c]) >= 0
    ensures LastOf(s, c) >= 0 && Join(Split(s, [c])[..|Split(s, [c])| - 1], [c]) == s[..LastOf(s, c)]
    decreases |s|, 0
  {
    SplitStep(s, c);
    var i := Find(s, [c]);
    var rest := s[i + 1..];
    LastOfAfter(s, c, i);
    if Find(rest, [c]) < 0 {
      SplitNone(rest, c);
      JoinTwo(s[..i], rest, [c], Split(s, [c]));
    } else {
      SplitStep(rest, c);
      JoinAllButLastFound(rest, c);
      var q, l := Split(rest, [c]), LastOf(rest, c);
      assert |q| >= 2;
      JoinStep(s, c, i, q, l, Split(s, [c]));
      assert LastOf(s, c) == i + 1 + l;
    }
  }

  lemma JoinTwo(a: string, b: string, sep: string, parts: seq<string>)
    requires parts == [a] + [b]
    ensures Join(parts[..|parts| - 1], sep) == a
  {
    assert parts[..1] == [a];
  }

  /** The inductive step of `JoinAllButLast`, on plain sequences: joining
      the first piece with all but the last of the rest's pieces. */
  lemma JoinStep(s: string, c: char, i: nat, q: seq<string>, l: int, parts: seq<string>)
    requires i < |s| && s[i] == c && parts == [s[..i]] + q && |q| >= 2
    requires 0 <= l && i + 1 + l <= |s| && Join(q[..|q| - 1], [c]) == s[i + 1..][..l]
    ensures Join(parts[..|parts| - 1], [c]) == s[..i + 1 + l]
  {
    InitCons(s[..i], q);
    JoinCons(s[..i], q[..|q| - 1], [c]);
    SliceAround(s, i, l);
  }

  /** `find` of a one-character needle is the first index holding it. */
  lemma FindChar(s: string, c: char)
    ensures Find(s, [c]) == if FirstIn(s, {c}) < |s| then FirstIn(s, {c}) else -1
  {
    var f := FirstIn(s, {c});
    var r := Find(s, [c]);
    if r >= 0 {
      OccursAtChar(s, c, r);
    }
    if f < |s| {
      OccursAtChar(s, c, f);
    }
  }

  /** `rfind` of a one-character needle is the last index holding it. */
  lemma RFindChar(s: string, c: char)
    ensures RFind(s, [c]) == LastOf(s, c)
  {
    var r := RFind(s, [c]);
    if r >= 0 {
      OccursAtChar(s, c, r);
    }
    forall j | r < j < |s| ensures s[j] != c {
      OccursAtChar(s, c, j);
    }
    LastOfUnique(s, c, r);
  }

  /** Python's `s.lstrip(c)` for one character. */
  function LStrip(s: string, c: char): (r: string)
    ensures |r| <= |s| && r == s[|s| - |r|..]
    ensures r == [] || r[0] != c
    ensures forall j :: 0 <= j < |s| - |r| ==> s[j] == c
  {
    if |s| > 0 && s[0] == c then LStrip(s[1..], c) else s
  }

  /** Python's `s.rstrip(c)` for one character. */
  function RStrip(s: string, c: char): (r: string)
    ensures |r| <= |s| && r == s[..|r|]
    ensures r == [] || r[|r| - 1] != c
    ensures forall j :: |r| <= j < |s| ==> s[j] == c
  {
    if |s| > 0 && s[|s| - 1] == c then RStrip(s[..|s| - 1], c) else s
  }

  /** Python's `s.strip(c)` for one character. */
  function Strip(s: string, c: char): (r: string)
    ensures r == [] || (r[0] != c && r[|r| - 1] != c)
    ensures r == [] <==> forall j :: 0 <= j < |s| ==> s[j] == c
  {
    var t := RStrip(s, c);
    var r := LStrip(t, c);
    StripEmpty(s, c, t, r);
    StripLast(t, c, r);
    r
  }

  lemma StripEmpty(s: string, c: char, t: string, r: string)
    requires t == RStrip(s, c) && r == LStrip(t, c)
    ensures r == [] ==> forall j :: 0 <= j < |s| ==> s[j] == c
  {
    if r == [] {
      forall j | 0 <= j < |s| ensures s[j] == c {
        if j < |t| {
          assert t[j] == s[j];
        }
      }
    }
  }

  lemma StripLast(t: string, c: char, r: string)
    requires t == [] || t[|t| - 1] != c
    requires r == LStrip(t, c)
    ensures r == [] || r[|r| - 1] != c
  {
    if r != [] {
      assert r[|r| - 1] == t[|t| - 1];
    }
  }

  /** ASCII lower-casing of one character (Python `lower()` on ASCII). */
  function LowerChar(c: char): char {
    if 'A' <= c <= 'Z' then (c as int + 32) as char else c
  }

  function Lower(s: string): (r: string)
    ensures |r| == |s|
    ensures forall i :: 0 <= i < |s| ==> r[i] == LowerChar(s[i])
  {
    seq(|s|, i requires 0 <= i < |s| => LowerChar(s[i]))
  }

  /** The decimal digit character for `d`. */
  function DigitChar(d: nat): (c: char)
    requires d < 10
    ensures '0' <= c <= '9'
  {
    (48 + d) as char
  }

  /** Python's `f"{n}"` for a natural number. */
  function Decimal(n: nat): (r: string)
    ensures |r| >= 1
    ensures forall i :: 0 <= i < |r| ==> '0' <= r[i] <= '9'
  {
    if n < 10 then [DigitChar(n)] else Decimal(n / 10) + [DigitChar(n % 10)]
  }

  /** Distinct numbers have distinct decimal renderings. */
  lemma {:induction false} DecimalInjective(a: nat, b: nat)
    requires Decimal(a) == Decimal(b)
    ensures a == b
  {
    if a >= 10 && b >= 10 {
      var da, db := Decimal(a / 10), Decimal(b / 10);
      assert Decimal(a) == da + [DigitChar(a % 10)];
      assert Decimal(b) == db + [DigitChar(b % 10)];
      assert |da| == |db|;
      assert da == Decimal(a)[..|da|] == Decimal(b)[..|db|] == db;
      assert DigitChar(a % 10) == Decimal(a)[|da|] == Decimal(b)[|db|] == DigitChar(b % 10);
      DecimalInjective(a / 10, b / 10);
    }
  }
}
