/** The program's nullable references: `None` stands for C# `null`. */
module Opt {
  datatype Option<+T> = None | Some(value: T)
}

/**
 * String helpers shared by every component: .NET whitespace, `Trim`,
 * ordinal case folding, substring search and `String.Split`.
 *
 * Strings are `seq<char>`. Case-insensitive comparison (`OrdinalIgnoreCase`,
 * `ToLowerInvariant`) is modelled as ASCII folding.
 */
module Text {
  import opened Opt

  // ---------------------------------------------------------------------------
  // Sequence shapes
  // ---------------------------------------------------------------------------

  lemma SeqFront<T>(xs: seq<T>)
    requires |xs| > 0
    ensures xs == [xs[0]] + xs[1..]
  {
  }

  lemma TailIndex<T>(xs: seq<T>, i: nat)
    requires 0 < i < |xs|
    ensures xs[1..][i - 1] == xs[i]
  {
  }

  lemma SeqAt<T>(xs: seq<T>, k: nat)
    requires k <= |xs|
    ensures xs == xs[..k] + xs[k..]
  {
  }

  lemma SeqBack<T>(xs: seq<T>)
    requires |xs| > 0
    ensures xs == xs[..|xs| - 1] + [xs[|xs| - 1]]
  {
  }

  lemma ConsAppend<T>(x: T, a: seq<T>, b: seq<T>)
    ensures [x] + a + b == [x] + (a + b)
  {
  }

  lemma AppendAssoc<T>(a: seq<T>, b: seq<T>, c: seq<T>)
    ensures a + b + c == a + (b + c)
  {
  }

  lemma PairCons<T>(a: T, b: T, tail: seq<T>)
    ensures [a, b] + tail == [a] + ([b] + tail)
  {
    assert ([a, b] + tail)[1..] == [b] + tail;
  }

  // ---------------------------------------------------------------------------
  // Whitespace (char.IsWhiteSpace, which is also the set that regex `\s` matches)
  // ---------------------------------------------------------------------------

  predicate IsWhite(c: char) {
    || ('\t' <= c <= '\r')
    || c == ' ' || c == '\U{0085}' || c == '\U{00A0}' || c == '\U{1680}'
    || ('\U{2000}' <= c <= '\U{200A}')
    || c == '\U{2028}' || c == '\U{2029}' || c == '\U{202F}' || c == '\U{205F}' || c == '\U{3000}'
  }

  predicate NoWhite(s: string) {
    forall i :: 0 <= i < |s| ==> !IsWhite(s[i])
  }

  /** `string.IsNullOrWhiteSpace` for a non-null string. */
  predicate IsBlank(s: string) {
    forall i :: 0 <= i < |s| ==> IsWhite(s[i])
  }

  /** `string.IsNullOrWhiteSpace`. */
  predicate IsNullOrWhiteSpace(s: Option<string>) {
    s.None? || IsBlank(s.value)
  }

  /** `string.IsNullOrEmpty`. */
  predicate IsNullOrEmpty(s: Option<string>) {
    s.None? || |s.value| == 0
  }

  /** Number of leading whitespace characters. */
  function LeadingWhite(s: string): (n: nat)
    ensures n <= |s|
    ensures forall i :: 0 <= i < n ==> IsWhite(s[i])
    ensures n < |s| ==> !IsWhite(s[n])
  {
    if |s| > 0 && IsWhite(s[0]) then 1 + LeadingWhite(s[1..]) else 0
  }

  /** Number of trailing whitespace characters. */
  function TrailingWhite(s: string): (n: nat)
    ensures n <= |s|
    ensures forall i :: |s| - n <= i < |s| ==> IsWhite(s[i])
    ensures n < |s| ==> !IsWhite(s[|s| - 1 - n])
  {
    if |s| > 0 && IsWhite(s[|s| - 1]) then 1 + TrailingWhite(s[..|s| - 1]) else 0
  }

  /** `String.Trim()`: drops leading and trailing whitespace. */
  function Trim(s: string): (r: string)
    ensures |r| <= |s|
    ensures LeadingWhite(s) + |r| <= |s| && r == s[LeadingWhite(s) .. LeadingWhite(s) + |r|]
    ensures |r| == 0 <==> IsBlank(s)
    ensures |r| > 0 ==> !IsWhite(r[0]) && !IsWhite(r[|r| - 1])
  {
    var i := LeadingWhite(s);
    if i == |s| then ""
    else
      var j := |s| - TrailingWhite(s);
      assert i < j by {
        assert !IsWhite(s[i]);
      }
      s[i..j]
  }

  /** No white space at either end. */
  predicate Trimmed(t: string) {
    |t| == 0 || (!IsWhite(t[0]) && !IsWhite(t[|t| - 1]))
  }

  /** Trimming only removes characters. */
  lemma TrimChars(s: string)
    ensures forall c :: c in Trim(s) ==> c in s
  {
    var r := Trim(s);
    var l := LeadingWhite(s);
    forall c | c in r ensures c in s {
      var j :| 0 <= j < |r| && r[j] == c;
      assert s[l + j] == c;
    }
  }

  lemma TrimOfTrimmed(s: string)
    requires |s| == 0 || (!IsWhite(s[0]) && !IsWhite(s[|s| - 1]))
    ensures Trim(s) == s
  {
    if |s| > 0 {
      assert LeadingWhite(s) == 0;
      assert TrailingWhite(s) == 0;
    }
  }

  // ---------------------------------------------------------------------------
  // Ordinal case folding
  // ---------------------------------------------------------------------------

  function FoldChar(c: char): char {
    if 'A' <= c <= 'Z' then (c as int + 32) as char else c
  }

  /** ASCII lower-casing: the model of `ToLowerInvariant` and of the key used by `OrdinalIgnoreCase`. */
  function Fold(s: string): (r: string)
    ensures |r| == |s|
    ensures forall i :: 0 <= i < |s| ==> r[i] == FoldChar(s[i])
  {
    seq(|s|, i requires 0 <= i < |s| => FoldChar(s[i]))
  }

  predicate NoUpper(s: string) {
    forall i :: 0 <= i < |s| ==> !('A' <= s[i] <= 'Z')
  }

  lemma FoldOfNoUpper(s: string)
    requires NoUpper(s)
    ensures Fold(s) == s
  {
  }

  lemma FoldAppend(a: string, b: string)
    ensures Fold(a + b) == Fold(a) + Fold(b)
  {
  }

  /** `a.Equals(b, StringComparison.OrdinalIgnoreCase)`. */
  predicate EqualsIgnoreCase(a: string, b: string) {
    Fold(a) == Fold(b)
  }

  /** `xs.Contains(x, StringComparer.OrdinalIgnoreCase)`. */
  predicate ContainsIgnoreCase(xs: seq<string>, x: string) {
    exists i :: 0 <= i < |xs| && Fold(xs[i]) == Fold(x)
  }

  /** A one-element list contains exactly the strings equal to its element up to case. */
  lemma SingleContains(a: string, x: string)
    ensures ContainsIgnoreCase([a], x) <==> EqualsIgnoreCase(a, x)
  {
    if EqualsIgnoreCase(a, x) {
      assert Fold([a][0]) == Fold(x);
    }
  }

  /** No two elements are equal under `OrdinalIgnoreCase`. */
  predicate NoDupIgnoreCase(xs: seq<string>) {
    forall i, j :: 0 <= i < j < |xs| ==> Fold(xs[i]) != Fold(xs[j])
  }

  // ---------------------------------------------------------------------------
  // Substrings
  // ---------------------------------------------------------------------------

  /** `hay.Contains(needle)` (ordinal). */
  predicate IsSubstring(needle: string, hay: string) {
    exists k :: 0 <= k <= |hay| - |needle| && OccursAt(needle, hay, k)
  }

  /** `needle` occurs in `hay` starting at index `k`. */
  predicate OccursAt(needle: string, hay: string, k: int) {
    0 <= k && k + |needle| <= |hay| && hay[k .. k + |needle|] == needle
  }

  lemma SubstringOfPrefix(a: string, b: string)
    ensures IsSubstring(a, a + b)
  {
    assert OccursAt(a, a + b, 0);
  }

  lemma SubstringOfSuffix(a: string, b: string)
    ensures IsSubstring(b, a + b)
  {
    assert OccursAt(b, a + b, |a|);
  }

  lemma SubstringTransitive(a: string, b: string, c: string)
    requires IsSubstring(a, b) && IsSubstring(b, c)
    ensures IsSubstring(a, c)
  {
    var k :| 0 <= k <= |b| - |a| && OccursAt(a, b, k);
    var m :| 0 <= m <= |c| - |b| && OccursAt(b, c, m);
    assert forall i :: 0 <= i < |a| ==> c[m + k + i] == b[k + i] == a[i];
    assert c[m + k .. m + k + |a|] == a;
    assert OccursAt(a, c, m + k);
  }

  /** A character of a substring occurs in the containing string. */
  lemma SubstringChar(a: string, b: string, c: char)
    requires IsSubstring(a, b) && c in a
    ensures c in b
  {
    var k :| 0 <= k <= |b| - |a| && OccursAt(a, b, k);
    var i :| 0 <= i < |a| && a[i] == c;
    assert b[k + i] == c;
  }

  // ---------------------------------------------------------------------------
  // String.Split and String.Join
  // ---------------------------------------------------------------------------

  /** `s.Split(seps)` without options: the pieces between separator characters, empty ones included. */
  function SplitChars(s: string, seps: set<char>): (r: seq<string>)
    ensures |r| >= 1
    ensures forall i, j :: 0 <= i < |r| && 0 <= j < |r[i]| ==> r[i][j] !in seps
    decreases |s|
  {
    if |s| == 0 then [""]
    else
      var rest := SplitChars(s[1..], seps);
      if s[0] in seps then [""] + rest
      else [[s[0]] + rest[0]] + rest[1..]
  }

  /** One step of `SplitChars` on a character that is not a separator. */
  lemma SplitKeep(c: char, t: string, seps: set<char>)
    requires c !in seps
    ensures SplitChars([c] + t, seps) == [[c] + SplitChars(t, seps)[0]] + SplitChars(t, seps)[1..]
  {
    assert ([c] + t)[1..] == t;
  }

  /** One step of `SplitChars` on a separator. */
  lemma SplitCut(c: char, t: string, seps: set<char>)
    requires c in seps
    ensures SplitChars([c] + t, seps) == [""] + SplitChars(t, seps)
  {
    assert ([c] + t)[1..] == t;
  }

  /** Three characters with a separator between each two split into three one-character pieces. */
  lemma SplitThree(x: char, y: char, z: char, sep: char)
    requires x != sep && y != sep && z != sep
    ensures SplitChars([x, sep, y, sep, z], {sep}) == [[x], [y], [z]]
  {
    var seps := {sep};
    assert SplitChars("", seps) == [""];
    SplitKeep(z, "", seps);
    assert [z] + "" == [z];
    assert SplitChars([z], seps) == [[z]];
    SplitCut(sep, [z], seps);
    assert [sep] + [z] == [sep, z];
    assert SplitChars([sep, z], seps) == ["", [z]];
    SplitKeep(y, [sep, z], seps);
    assert [y] + [sep, z] == [y, sep, z] && [y] + "" == [y];
    assert SplitChars([y, sep, z], seps) == [[y], [z]];
    SplitCut(sep, [y, sep, z], seps);
    assert [sep] + [y, sep, z] == [sep, y, sep, z];
    assert SplitChars([sep, y, sep, z], seps) == ["", [y], [z]];
    SplitKeep(x, [sep, y, sep, z], seps);
    assert [x] + [sep, y, sep, z] == [x, sep, y, sep, z] && [x] + "" == [x];
  }

  /** `String.Join(sep, xs)`. */
  function Join(xs: seq<string>, sep: string): string {
    if |xs| == 0 then ""
    else if |xs| == 1 then xs[0]
    else xs[0] + sep + Join(xs[1..], sep)
  }

  /** Joining two non-empty lists is joining each and putting one separator between. */
  lemma {:induction false} JoinAppend(a: seq<string>, b: seq<string>, sep: string)
    requires |a| > 0 && |b| > 0
    ensures Join(a + b, sep) == Join(a, sep) + sep + Join(b, sep)
    decreases |a|
  {
    if |a| == 1 {
      assert (a + b)[1..] == b;
    } else {
      assert (a + b)[1..] == a[1..] + b;
      JoinAppend(a[1..], b, sep);
    }
  }

  /** Every character of a join comes from the separator or from one of the pieces. */
  lemma {:induction false} JoinChars(xs: seq<string>, sep: string, c: char)
    requires c in Join(xs, sep)
    ensures c in sep || exists i :: 0 <= i < |xs| && c in xs[i]
    decreases |xs|
  {
    if |xs| > 1 && c !in xs[0] && c !in sep {
      assert c in Join(xs[1..], sep);
      JoinChars(xs[1..], sep, c);
      var i :| 0 <= i < |xs[1..]| && c in xs[1..][i];
      assert c in xs[i + 1];
    }
  }

  /** A character in no piece and not in the separator is not in the join. */
  lemma JoinLacks(xs: seq<string>, sep: string, c: char)
    requires c !in sep && forall i :: 0 <= i < |xs| ==> c !in xs[i]
    ensures c !in Join(xs, sep)
  {
    if c in Join(xs, sep) {
      JoinChars(xs, sep, c);
    }
  }

  /** Every character of every piece is in the join. */
  lemma {:induction false} JoinHasChar(xs: seq<string>, sep: string, i: nat, c: char)
    requires i < |xs| && c in xs[i]
    ensures c in Join(xs, sep)
    decreases |xs|
  {
    if |xs| > 1 && i > 0 {
      JoinHasChar(xs[1..], sep, i - 1, c);
    }
  }

  /** Splitting on one character and joining with it gives the string back. */
  lemma {:induction false} JoinSplitChar(s: string, c: char)
    ensures Join(SplitChars(s, {c}), [c]) == s
    decreases |s|
  {
    if |s| > 0 {
      var rest := SplitChars(s[1..], {c});
      JoinSplitChar(s[1..], c);
      if s[0] == c {
        assert SplitChars(s, {c}) == [""] + rest;
        assert Join([""] + rest, [c]) == "" + [c] + Join(rest, [c]);
        assert s == [s[0]] + s[1..];
      } else {
        var r := SplitChars(s, {c});
        assert r == [[s[0]] + rest[0]] + rest[1..];
        if |rest| == 1 {
          assert Join(r, [c]) == [s[0]] + rest[0];
          assert Join(rest, [c]) == rest[0];
        } else {
          assert r[1..] == rest[1..];
          assert Join(r, [c]) == [s[0]] + rest[0] + [c] + Join(rest[1..], [c]);
          assert Join(rest, [c]) == rest[0] + [c] + Join(rest[1..], [c]);
        }
        assert s == [s[0]] + s[1..];
      }
    }
  }

  /** A piece holds none of the separator characters. */
  predicate NoSep(x: string, seps: set<char>) {
    forall k :: 0 <= k < |x| ==> x[k] !in seps
  }

  /** Joining pieces that hold no separator with one of them, and splitting again, gives the pieces back. */
  lemma {:induction false} SplitJoinChar(xs: seq<string>, c: char, seps: set<char>)
    requires |xs| >= 1 && c in seps
    requires forall i :: 0 <= i < |xs| ==> NoSep(xs[i], seps)
    ensures SplitChars(Join(xs, [c]), seps) == xs
    decreases |xs|, |xs[0]|
  {
    if |xs[0]| == 0 {
      if |xs| > 1 {
        assert forall i :: 0 <= i < |xs| - 1 ==> xs[1..][i] == xs[i + 1];
        SplitJoinChar(xs[1..], c, seps);
        SeqFront(xs);
        JoinEmptyHead(xs[1..], [c]);
        SplitCut(c, Join(xs[1..], [c]), seps);
      }
    } else {
      var ys := [xs[0][1..]] + xs[1..];
      NoSepOfRest(xs, ys, seps);
      SplitJoinChar(ys, c, seps);
      HeadPeeled(xs, ys);
      JoinGlue(xs[0][0], ys, [c]);
      SplitKeep(xs[0][0], Join(ys, [c]), seps);
    }
  }

  /** Dropping the first character of the first piece keeps every piece free of separators. */
  lemma NoSepOfRest(xs: seq<string>, ys: seq<string>, seps: set<char>)
    requires |xs| >= 1 && |xs[0]| > 0 && ys == [xs[0][1..]] + xs[1..]
    requires forall i :: 0 <= i < |xs| ==> NoSep(xs[i], seps)
    ensures xs[0][0] !in seps
    ensures forall i :: 0 <= i < |ys| ==> NoSep(ys[i], seps)
  {
    assert NoSep(xs[0], seps);
    forall i | 0 <= i < |ys| ensures NoSep(ys[i], seps) {
      if i == 0 {
        forall k | 0 <= k < |ys[0]| ensures ys[0][k] !in seps {
          assert ys[0][k] == xs[0][k + 1];
        }
      } else {
        assert ys[i] == xs[i];
      }
    }
  }

  /** The pieces are the first character, glued to the first piece of the rest. */
  lemma HeadPeeled(xs: seq<string>, ys: seq<string>)
    requires |xs| >= 1 && |xs[0]| > 0 && ys == [xs[0][1..]] + xs[1..]
    ensures |ys| > 0 && xs == [[xs[0][0]] + ys[0]] + ys[1..]
  {
    assert ys[1..] == xs[1..];
    assert xs[0] == [xs[0][0]] + xs[0][1..];
  }

  /** Does `s` start with `p`? */
  predicate StartsWith(s: string, p: string) {
    |p| <= |s| && s[..|p|] == p
  }

  /** `s.Split(new[] { sep }, StringSplitOptions.None)` for a non-empty separator string:
      left-to-right, non-overlapping occurrences. */
  function SplitOn(s: string, sep: string): (r: seq<string>)
    requires |sep| > 0
    ensures |r| >= 1
    decreases |s|
  {
    if |s| == 0 then [""]
    else if StartsWith(s, sep) then [""] + SplitOn(s[|sep|..], sep)
    else
      var rest := SplitOn(s[1..], sep);
      [[s[0]] + rest[0]] + rest[1..]
  }

  /** Joining the pieces of a split with the separator gives the string back. */
  lemma {:induction false} JoinSplitOn(s: string, sep: string)
    requires |sep| > 0
    ensures Join(SplitOn(s, sep), sep) == s
    decreases |s|
  {
    if |s| > 0 {
      if StartsWith(s, sep) {
        var rest := SplitOn(s[|sep|..], sep);
        JoinSplitOn(s[|sep|..], sep);
        assert SplitOn(s, sep) == [""] + rest;
        JoinEmptyHead(rest, sep);
        SeqAt(s, |sep|);
      } else {
        var rest := SplitOn(s[1..], sep);
        JoinSplitOn(s[1..], sep);
        assert SplitOn(s, sep) == [[s[0]] + rest[0]] + rest[1..];
        JoinGlue(s[0], rest, sep);
        SeqFront(s);
      }
    }
  }

  /** An empty first piece leaves the separator at the front. */
  lemma JoinEmptyHead(rest: seq<string>, sep: string)
    requires |rest| > 0
    ensures Join([""] + rest, sep) == sep + Join(rest, sep)
  {
    assert ([""] + rest)[1..] == rest;
  }

  /** A character put in front of the first piece ends up in front of the joined text. */
  lemma JoinGlue(c: char, rest: seq<string>, sep: string)
    requires |rest| > 0
    ensures Join([[c] + rest[0]] + rest[1..], sep) == [c] + Join(rest, sep)
  {
    var r := [[c] + rest[0]] + rest[1..];
    if |rest| > 1 {
      assert r[1..] == rest[1..];
      AppendAssoc([c], rest[0], sep + Join(rest[1..], sep));
      AppendAssoc(rest[0], sep, Join(rest[1..], sep));
      AppendAssoc([c] + rest[0], sep, Join(rest[1..], sep));
    }
  }


  /** The separator starts at none of the first `n` positions of `s`. */
  predicate NoSepBefore(s: string, sep: string, n: nat) {
    forall k :: 0 <= k < n && k <= |s| ==> !StartsWith(s[k..], sep)
  }

  /** A string in which the separator never starts splits into itself. */
  lemma {:induction false} SplitOnNone(s: string, sep: string)
    requires |sep| > 0 && NoSepBefore(s, sep, |s|)
    ensures SplitOn(s, sep) == [s]
    decreases |s|
  {
    if |s| > 0 {
      assert !StartsWith(s[0..], sep);
      assert s[0..] == s;
      forall k | 0 <= k < |s| - 1 ensures !StartsWith(s[1..][k..], sep) {
        assert s[1..][k..] == s[k + 1..];
      }
      SplitOnNone(s[1..], sep);
      assert s == [s[0]] + s[1..];
    }
  }

  /** When the separator first starts right after `a`, the first piece is `a`. */
  lemma {:induction false} SplitOnFirst(a: string, sep: string, b: string)
    requires |sep| > 0 && NoSepBefore(a + sep + b, sep, |a|)
    ensures SplitOn(a + sep + b, sep) == [a] + SplitOn(b, sep)
    decreases |a|
  {
    var s := a + sep + b;
    if |a| == 0 {
      assert s == sep + b;
      assert StartsWith(s, sep) by {
        assert s[..|sep|] == sep;
      }
      assert s[|sep|..] == b;
    } else {
      assert !StartsWith(s[0..], sep);
      assert s[0..] == s;
      assert s[1..] == a[1..] + sep + b;
      forall k | 0 <= k < |a| - 1 ensures !StartsWith((a[1..] + sep + b)[k..], sep) {
        assert (a[1..] + sep + b)[k..] == s[k + 1..];
      }
      SplitOnFirst(a[1..], sep, b);
      assert a == [a[0]] + a[1..];
    }
  }

  /** `StringSplitOptions.RemoveEmptyEntries`: keeps the non-empty pieces, in order. */
  function NonEmpty(xs: seq<string>): (r: seq<string>)
    ensures |r| <= |xs|
    ensures forall i :: 0 <= i < |r| ==> |r[i]| > 0
    ensures forall x :: x in r <==> x in xs && |x| > 0
  {
    if |xs| == 0 then []
    else if |xs[0]| == 0 then NonEmpty(xs[1..])
    else [xs[0]] + NonEmpty(xs[1..])
  }

  /** Number of non-empty pieces. */
  function CountNonEmpty(xs: seq<string>): nat {
    if |xs| == 0 then 0 else (if |xs[0]| > 0 then 1 else 0) + CountNonEmpty(xs[1..])
  }

  lemma NonEmptyLength(xs: seq<string>)
    ensures |NonEmpty(xs)| == CountNonEmpty(xs)
  {
  }

  // ---------------------------------------------------------------------------
  // Case-insensitive, first-occurrence de-duplication
  // ---------------------------------------------------------------------------

  /**
   * Appends each element of `xs`, in order, unless an equal one (ignoring case)
   * is already present. This is both `existing.Hidden.Add(h)` guarded by
   * `Contains(h, OrdinalIgnoreCase)` and `Distinct(OrdinalIgnoreCase)`.
   */
  function AppendNew(acc: seq<string>, xs: seq<string>): seq<string>
    decreases |xs|
  {
    if |xs| == 0 then acc
    else AppendNew(if ContainsIgnoreCase(acc, xs[0]) then acc else acc + [xs[0]], xs[1..])
  }

  /** `xs.Distinct(StringComparer.OrdinalIgnoreCase)`: first occurrences, in order. */
  function DistinctIgnoreCase(xs: seq<string>): seq<string> {
    AppendNew([], xs)
  }

  lemma {:induction false} AppendNewKeepsPrefix(acc: seq<string>, xs: seq<string>)
    ensures |AppendNew(acc, xs)| >= |acc|
    ensures AppendNew(acc, xs)[..|acc|] == acc
    decreases |xs|
  {
    if |xs| > 0 {
      var acc' := if ContainsIgnoreCase(acc, xs[0]) then acc else acc + [xs[0]];
      AppendNewKeepsPrefix(acc', xs[1..]);
      assert acc'[..|acc|] == acc;
    }
  }

  lemma {:induction false} AppendNewElements(acc: seq<string>, xs: seq<string>)
    ensures forall y :: y in AppendNew(acc, xs) ==> y in acc || y in xs
    decreases |xs|
  {
    if |xs| > 0 {
      var acc' := if ContainsIgnoreCase(acc, xs[0]) then acc else acc + [xs[0]];
      AppendNewElements(acc', xs[1..]);
      forall y | y in AppendNew(acc, xs) ensures y in acc || y in xs {
        assert y in acc' || y in xs[1..];
        if y in xs[1..] {
          var k :| 0 <= k < |xs[1..]| && xs[1..][k] == y;
          assert xs[k + 1] == y;
        }
      }
    }
  }

  lemma {:induction false} AppendNewCovers(acc: seq<string>, xs: seq<string>)
    ensures forall x :: x in acc ==> ContainsIgnoreCase(AppendNew(acc, xs), x)
    ensures forall x :: x in xs ==> ContainsIgnoreCase(AppendNew(acc, xs), x)
    decreases |xs|
  {
    if |xs| > 0 {
      var acc' := if ContainsIgnoreCase(acc, xs[0]) then acc else acc + [xs[0]];
      AppendNewCovers(acc', xs[1..]);
      var r := AppendNew(acc, xs);
      assert ContainsIgnoreCase(acc', xs[0]) by {
        if !ContainsIgnoreCase(acc, xs[0]) { assert acc'[|acc|] == xs[0]; }
      }
      forall x | x in acc' ensures ContainsIgnoreCase(r, x) {
        var i :| 0 <= i < |acc'| && acc'[i] == x;
        AppendNewKeepsPrefix(acc', xs[1..]);
        assert r[i] == x;
      }
      assert forall x :: x in acc ==> x in acc';
      forall x | ContainsIgnoreCase(acc', x) ensures ContainsIgnoreCase(r, x) {
        var i :| 0 <= i < |acc'| && Fold(acc'[i]) == Fold(x);
        AppendNewKeepsPrefix(acc', xs[1..]);
        assert r[i] == acc'[i];
      }
      forall x | x in xs ensures ContainsIgnoreCase(r, x) {
        if x != xs[0] { assert x in xs[1..]; }
      }
    }
  }

  lemma {:induction false} AppendNewDistinct(acc: seq<string>, xs: seq<string>)
    requires NoDupIgnoreCase(acc)
    ensures NoDupIgnoreCase(AppendNew(acc, xs))
    decreases |xs|
  {
    if |xs| > 0 {
      var acc' := if ContainsIgnoreCase(acc, xs[0]) then acc else acc + [xs[0]];
      assert NoDupIgnoreCase(acc') by {
        if !ContainsIgnoreCase(acc, xs[0]) {
          forall i, j | 0 <= i < j < |acc'| ensures Fold(acc'[i]) != Fold(acc'[j]) {
            if j == |acc| {
              assert acc'[i] == acc[i];
            }
          }
        }
      }
      AppendNewDistinct(acc', xs[1..]);
    }
  }

  /** The de-duplicated list: no case-insensitive duplicates, nothing lost, nothing invented. */
  lemma DistinctIgnoreCaseSpec(xs: seq<string>)
    ensures NoDupIgnoreCase(DistinctIgnoreCase(xs))
    ensures forall x :: x in xs ==> ContainsIgnoreCase(DistinctIgnoreCase(xs), x)
    ensures forall y :: y in DistinctIgnoreCase(xs) ==> y in xs
  {
    AppendNewDistinct([], xs);
    AppendNewCovers([], xs);
    AppendNewElements([], xs);
  }

  /** De-duplicating a list without case-insensitive duplicates changes nothing. */
  lemma {:induction false} AppendNewAllNew(acc: seq<string>, xs: seq<string>)
    requires NoDupIgnoreCase(acc + xs)
    ensures AppendNew(acc, xs) == acc + xs
    decreases |xs|
  {
    if |xs| > 0 {
      assert !ContainsIgnoreCase(acc, xs[0]) by {
        forall i | 0 <= i < |acc| ensures Fold(acc[i]) != Fold(xs[0]) {
          assert (acc + xs)[i] == acc[i] && (acc + xs)[|acc|] == xs[0];
        }
      }
      assert acc + xs == (acc + [xs[0]]) + xs[1..];
      AppendNewAllNew(acc + [xs[0]], xs[1..]);
    }
  }

  lemma DistinctOfDistinct(xs: seq<string>)
    requires NoDupIgnoreCase(xs)
    ensures DistinctIgnoreCase(xs) == xs
  {
    assert [] + xs == xs;
    AppendNewAllNew([], xs);
  }

  // ---------------------------------------------------------------------------
  // Ordinal ordering and sorting
  // ---------------------------------------------------------------------------

  /** Ordinal (code-point) lexicographic order. */
  predicate LessEq(a: string, b: string) {
    if |a| == 0 then true
    else if |b| == 0 then false
    else if a[0] != b[0] then a[0] < b[0]
    else LessEq(a[1..], b[1..])
  }

  lemma LessEqTotal(a: string, b: string)
    ensures LessEq(a, b) || LessEq(b, a)
  {
  }

  lemma LessEqTransitive(a: string, b: string, c: string)
    requires LessEq(a, b) && LessEq(b, c)
    ensures LessEq(a, c)
  {
  }

  predicate Sorted(xs: seq<string>) {
    forall i, j :: 0 <= i < j < |xs| ==> LessEq(xs[i], xs[j])
  }

  function Insert(x: string, xs: seq<string>): (r: seq<string>)
    requires Sorted(xs)
    ensures Sorted(r)
    ensures multiset(r) == multiset(xs) + multiset{x}
  {
    if |xs| == 0 then [x]
    else if LessEq(x, xs[0]) then
      SortedBelowHead(x, xs);
      [x] + xs
    else
      LessEqTotal(x, xs[0]);
      var t := Insert(x, xs[1..]);
      SeqFront(xs);
      HeadBelowRest(xs, x, t);
      [xs[0]] + t
  }

  /** What is below the head of a sorted list is below all of it. */
  lemma SortedBelowHead(x: string, xs: seq<string>)
    requires Sorted(xs) && |xs| > 0 && LessEq(x, xs[0])
    ensures forall j :: 0 <= j < |xs| ==> LessEq(x, xs[j])
  {
    forall j | 0 <= j < |xs| ensures LessEq(x, xs[j]) {
      if j > 0 { LessEqTransitive(x, xs[0], xs[j]); }
    }
  }

  /** The head of a sorted list is below the tail with an element above the head inserted. */
  lemma HeadBelowRest(xs: seq<string>, x: string, t: seq<string>)
    requires Sorted(xs) && |xs| > 0 && LessEq(xs[0], x)
    requires multiset(t) == multiset(xs[1..]) + multiset{x}
    ensures forall j :: 0 <= j < |t| ==> LessEq(xs[0], t[j])
  {
    forall j | 0 <= j < |t| ensures LessEq(xs[0], t[j]) {
      var y := t[j];
      assert y in multiset(t);
      if y != x {
        assert y in multiset(xs[1..]);
        var k :| 0 <= k < |xs[1..]| && xs[1..][k] == y;
        assert xs[k + 1] == y;
      }
    }
  }

  /** `OrderBy(k => k)` with the ordinal comparer: a sorted permutation. */
  function Sort(xs: seq<string>): (r: seq<string>)
    ensures Sorted(r)
    ensures multiset(r) == multiset(xs)
  {
    if |xs| == 0 then []
    else
      assert xs == [xs[0]] + xs[1..];
      Insert(xs[0], Sort(xs[1..]))
  }

  /** An element at two positions occurs at least twice. */
  lemma TwiceCounted(xs: seq<string>, i: nat, j: nat)
    requires i < j < |xs| && xs[i] == xs[j]
    ensures multiset(xs)[xs[i]] >= 2
  {
    assert xs == xs[..j] + [xs[j]] + xs[j + 1..];
    assert xs[..j][i] == xs[i];
    assert xs[i] in multiset(xs[..j]);
  }

  /** An element occurring at least twice sits at two positions. */
  lemma {:induction false} CountedTwice(xs: seq<string>, x: string)
    requires multiset(xs)[x] >= 2
    ensures exists i, j :: 0 <= i < j < |xs| && xs[i] == x && xs[j] == x
    decreases |xs|
  {
    assert xs == [xs[0]] + xs[1..];
    if xs[0] == x {
      assert x in multiset(xs[1..]);
      var j :| 0 <= j < |xs[1..]| && xs[1..][j] == x;
      assert xs[j + 1] == x;
    } else {
      CountedTwice(xs[1..], x);
      var i, j :| 0 <= i < j < |xs[1..]| && xs[1..][i] == x && xs[1..][j] == x;
      assert xs[i + 1] == x && xs[j + 1] == x;
    }
  }

  /** Reordering keeps a list free of duplicates up to case. */
  lemma PermutedNoDup(a: seq<string>, b: seq<string>)
    requires multiset(a) == multiset(b) && NoDupIgnoreCase(a)
    ensures NoDupIgnoreCase(b)
  {
    forall i, j | 0 <= i < j < |b| ensures Fold(b[i]) != Fold(b[j]) {
      if b[i] == b[j] {
        TwiceCounted(b, i, j);
        CountedTwice(a, b[i]);
      } else {
        assert b[i] in multiset(a) && b[j] in multiset(a);
        var p :| 0 <= p < |a| && a[p] == b[i];
        var q :| 0 <= q < |a| && a[q] == b[j];
        assert p != q;
      }
    }
  }
}
