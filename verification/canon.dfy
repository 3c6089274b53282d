/**
 * `ScoringRules.Normalize`: the single canonicaliser every key, match string
 * and visible text goes through before a lookup.
 *
 * The pipeline runs, in order: Unicode spaces and dashes unified, `[..]`
 * groups and then `{..}` groups resolved to their last `|` option, ASCII
 * lower-casing, digit runs to `#`, `#` runs collapsed, every character outside
 * `[a-z0-9 #-]` replaced by a space, the `packs` to `pack` alias, whitespace
 * runs collapsed, and a final trim. Each regular expression of the code is
 * written here as an explicit left-to-right scanner.
 */
module Canon {
  import opened Opt
  import opened Text

  // ---------------------------------------------------------------------------
  // Character classes
  // ---------------------------------------------------------------------------

  /** Regex `\d`, restricted to ASCII digits. */
  predicate IsDigit(c: char) {
    '0' <= c <= '9'
  }

  /** The class `[a-z0-9 #\-]` that the strip pass keeps. */
  predicate StripKeeps(c: char) {
    ('a' <= c <= 'z') || IsDigit(c) || c == ' ' || c == '#' || c == '-'
  }

  /** Characters that can appear in a normalised string. */
  predicate CanonChar(c: char) {
    ('a' <= c <= 'z') || c == ' ' || c == '#' || c == '-'
  }

  predicate NoDigit(s: string) {
    forall i :: 0 <= i < |s| ==> !IsDigit(s[i])
  }

  predicate NoDoubleHash(s: string) {
    forall i :: 0 <= i < |s| - 1 ==> !(s[i] == '#' && s[i + 1] == '#')
  }

  predicate NoDoubleWhite(s: string) {
    forall i :: 0 <= i < |s| - 1 ==> !(IsWhite(s[i]) && IsWhite(s[i + 1]))
  }

  /**
   * The shape of every normalised string: only `a-z`, space, `#` and `-`;
   * no space at either end; no two spaces in a row; no `##`.
   */
  predicate Canonical(t: string) {
    && (forall i :: 0 <= i < |t| ==> CanonChar(t[i]))
    && (|t| > 0 ==> t[0] != ' ' && t[|t| - 1] != ' ')
    && NoDoubleWhite(t)
    && NoDoubleHash(t)
  }

  // ---------------------------------------------------------------------------
  // Pass 1: odd Unicode spaces and dashes
  // ---------------------------------------------------------------------------

  /** No-break, narrow no-break and figure spaces become ' '; en and em dashes become '-'. */
  function UnifyChar(c: char): char {
    if c == '\U{00A0}' || c == '\U{202F}' || c == '\U{2007}' then ' '
    else if c == '\U{2013}' || c == '\U{2014}' then '-'
    else c
  }

  function UnifySpaces(s: string): string {
    seq(|s|, i requires 0 <= i < |s| => UnifyChar(s[i]))
  }

  // ---------------------------------------------------------------------------
  // Pass 2: `[..]` and `{..}` groups, regex `\[(.*?)\]` and `\{(.*?)\}`
  // ---------------------------------------------------------------------------

  /**
   * Where the lazy body `(.*?)` ends: the index in `s` of the first `close`,
   * provided no line feed comes before it (`.` does not match '\n').
   */
  function FindClose(s: string, close: char): (r: Option<nat>)
    ensures r.Some? ==> r.value < |s| && s[r.value] == close
    decreases |s|
  {
    if |s| == 0 then None
    else if s[0] == close then Some(0)
    else if s[0] == '\n' then None
    else
      match FindClose(s[1..], close)
      case None => None
      case Some(j) => Some(j + 1)
  }

  /** The close `FindClose` finds is the first one, with no line feed before it; with none found, every close has a line feed before it. */
  lemma {:induction false} FindCloseSpec(s: string, close: char)
    ensures FindClose(s, close).Some? ==> forall k :: 0 <= k < FindClose(s, close).value ==> s[k] != close && s[k] != '\n'
    ensures FindClose(s, close).None? ==> forall k :: 0 <= k < |s| && s[k] == close ==> exists m :: 0 <= m < k && s[m] == '\n'
    decreases |s|
  {
    if |s| > 0 && s[0] != close && s[0] != '\n' {
      FindCloseSpec(s[1..], close);
      assert forall k :: 1 <= k < |s| ==> s[k] == s[1..][k - 1];
    }
  }

  /** What the game shows for a group body: the last `|` option, trimmed. */
  function PickOption(body: string): string {
    var b := Trim(body);
    if '|' in b then
      var parts := SplitChars(b, {'|'});
      Trim(parts[|parts| - 1])
    else b
  }

  lemma PickOptionHasNoBar(body: string)
    ensures '|' !in PickOption(body)
  {
    var b := Trim(body);
    if '|' in b {
      var parts := SplitChars(b, {'|'});
      var last := parts[|parts| - 1];
      assert forall j :: 0 <= j < |last| ==> last[j] != '|';
      TrimChars(last);
    }
  }

  /** The replacement text of one matched group. */
  function ResolveBody(body: string): (r: string)
    ensures |r| >= 2 && r[0] == ' ' && r[|r| - 1] == ' '
    ensures '|' !in r
  {
    var p := PickOption(body);
    PickOptionHasNoBar(body);
    " " + p + " "
  }

  /** `Regex.Replace(s, open (.*?) close, ResolveBody)`: scans left to right, matches do not overlap. */
  function ResolveGroups(s: string, open: char, close: char): (r: string)
    decreases |s|, 1
  {
    if |s| == 0 then ""
    else if s[0] == open then
      match FindClose(s[1..], close)
      case Some(j) => ResolveGroup(s, open, close, j)
      case None => [s[0]] + ResolveGroups(s[1..], open, close)
    else [s[0]] + ResolveGroups(s[1..], open, close)
  }

  /** A group closed at `s[j + 1]` replaced by its option, then the pass over the rest. */
  function ResolveGroup(s: string, open: char, close: char, j: nat): string
    requires j + 2 <= |s|
    decreases |s|, 0
  {
    ResolveBody(s[1..1 + j]) + ResolveGroups(s[j + 2..], open, close)
  }

  // ---------------------------------------------------------------------------
  // Pass 4: numbers, regex `\d+([.,]\d+)?` replaced by "#"
  // ---------------------------------------------------------------------------

  function DigitRun(s: string): (n: nat)
    ensures n <= |s|
    ensures forall i :: 0 <= i < n ==> IsDigit(s[i])
    ensures n < |s| ==> !IsDigit(s[n])
  {
    if |s| > 0 && IsDigit(s[0]) then 1 + DigitRun(s[1..]) else 0
  }

  /** Length of the greedy match of `\d+([.,]\d+)?` at the start of `s`; 0 when `s` does not start with a digit. */
  function NumberMatch(s: string): (n: nat)
    ensures n <= |s|
    ensures n > 0 <==> |s| > 0 && IsDigit(s[0])
  {
    var d := DigitRun(s);
    if d == 0 then 0
    else if d + 1 < |s| && (s[d] == '.' || s[d] == ',') && IsDigit(s[d + 1]) then d + 1 + DigitRun(s[d + 1..])
    else d
  }

  function ReplaceNumbers(s: string): (r: string)
    ensures NoDigit(r)
    ensures forall i :: 0 <= i < |r| ==> r[i] == '#' || r[i] in s
    ensures |s| > 0 ==> |r| > 0 && r[0] == (if IsDigit(s[0]) then '#' else s[0])
    decreases |s|
  {
    if |s| == 0 then ""
    else if IsDigit(s[0]) then
      var n := NumberMatch(s);
      var rest := ReplaceNumbers(s[n..]);
      assert forall i :: 0 <= i < |rest| ==> rest[i] == '#' || rest[i] in s by {
        forall i | 0 <= i < |rest| && rest[i] != '#' ensures rest[i] in s {
          var k :| 0 <= k < |s[n..]| && s[n..][k] == rest[i];
          assert s[n + k] == rest[i];
        }
      }
      "#" + rest
    else
      var rest := ReplaceNumbers(s[1..]);
      assert forall i :: 0 <= i < |rest| ==> rest[i] == '#' || rest[i] in s by {
        forall i | 0 <= i < |rest| && rest[i] != '#' ensures rest[i] in s {
          var k :| 0 <= k < |s[1..]| && s[1..][k] == rest[i];
          assert s[1 + k] == rest[i];
        }
      }
      [s[0]] + rest
  }

  // ---------------------------------------------------------------------------
  // Pass 5: regex `#{2,}` replaced by "#"
  // ---------------------------------------------------------------------------

  function HashRun(s: string): (n: nat)
    ensures n <= |s|
    ensures forall i :: 0 <= i < n ==> s[i] == '#'
    ensures n < |s| ==> s[n] != '#'
  {
    if |s| > 0 && s[0] == '#' then 1 + HashRun(s[1..]) else 0
  }

  function CollapseHashes(s: string): (r: string)
    ensures NoDoubleHash(r)
    ensures |s| > 0 ==> |r| > 0 && r[0] == s[0]
    ensures forall i :: 0 <= i < |r| ==> r[i] in s
    decreases |s|
  {
    if |s| == 0 then ""
    else if s[0] == '#' then
      var n := HashRun(s);
      var rest := CollapseHashes(s[n..]);
      assert forall i :: 0 <= i < |rest| ==> rest[i] in s by {
        forall i | 0 <= i < |rest| ensures rest[i] in s {
          var k :| 0 <= k < |s[n..]| && s[n..][k] == rest[i];
          assert s[n + k] == rest[i];
        }
      }
      "#" + rest
    else
      var rest := CollapseHashes(s[1..]);
      assert forall i :: 0 <= i < |rest| ==> rest[i] in s by {
        forall i | 0 <= i < |rest| ensures rest[i] in s {
          var k :| 0 <= k < |s[1..]| && s[1..][k] == rest[i];
          assert s[1 + k] == rest[i];
        }
      }
      [s[0]] + rest
  }

  // ---------------------------------------------------------------------------
  // Pass 6: regex `[^a-z0-9 #\-]` replaced by " "
  // ---------------------------------------------------------------------------

  function StripChar(c: char): char {
    if StripKeeps(c) then c else ' '
  }

  function StripChars(s: string): string {
    seq(|s|, i requires 0 <= i < |s| => StripChar(s[i]))
  }

  // ---------------------------------------------------------------------------
  // Pass 7: `Replace("packs", "pack")`, ordinal, left to right
  // ---------------------------------------------------------------------------

  predicate PacksAt(s: string) {
    |s| >= 5 && s[0] == 'p' && s[1] == 'a' && s[2] == 'c' && s[3] == 'k' && s[4] == 's'
  }

  function AliasPacks(s: string): (r: string)
    ensures |s| > 0 ==> |r| > 0 && r[0] == s[0]
    ensures forall i :: 0 <= i < |r| ==> r[i] in s
    ensures NoDoubleHash(s) ==> NoDoubleHash(r)
    decreases |s|
  {
    if |s| == 0 then ""
    else if PacksAt(s) then
      var rest := AliasPacks(s[5..]);
      assert forall i :: 0 <= i < |rest| ==> rest[i] in s by {
        forall i | 0 <= i < |rest| ensures rest[i] in s {
          var k :| 0 <= k < |s[5..]| && s[5..][k] == rest[i];
          assert s[5 + k] == rest[i];
        }
      }
      assert NoDoubleHash(s) ==> NoDoubleHash(s[5..]) by {
        if NoDoubleHash(s) {
          forall i | 0 <= i < |s[5..]| - 1 ensures !(s[5..][i] == '#' && s[5..][i + 1] == '#') {
            assert s[5..][i] == s[5 + i] && s[5..][i + 1] == s[5 + i + 1];
          }
        }
      }
      "pack" + rest
    else
      var rest := AliasPacks(s[1..]);
      assert forall i :: 0 <= i < |rest| ==> rest[i] in s by {
        forall i | 0 <= i < |rest| ensures rest[i] in s {
          var k :| 0 <= k < |s[1..]| && s[1..][k] == rest[i];
          assert s[1 + k] == rest[i];
        }
      }
      assert NoDoubleHash(s) ==> NoDoubleHash(s[1..]) by {
        if NoDoubleHash(s) {
          forall i | 0 <= i < |s[1..]| - 1 ensures !(s[1..][i] == '#' && s[1..][i + 1] == '#') {
            assert s[1..][i] == s[1 + i] && s[1..][i + 1] == s[1 + i + 1];
          }
        }
      }
      [s[0]] + rest
  }

  // ---------------------------------------------------------------------------
  // Pass 8: regex `\s{2,}` replaced by " "
  // ---------------------------------------------------------------------------

  function CollapseSpaces(s: string): (r: string)
    ensures NoDoubleWhite(r)
    ensures |s| > 0 ==> |r| > 0 && (IsWhite(r[0]) <==> IsWhite(s[0])) && (!IsWhite(s[0]) ==> r[0] == s[0])
    ensures forall i :: 0 <= i < |r| ==> r[i] in s || r[i] == ' '
    ensures NoDoubleHash(s) ==> NoDoubleHash(r)
    decreases |s|
  {
    if |s| == 0 then ""
    else if IsWhite(s[0]) then
      var n := LeadingWhite(s);
      var rest := CollapseSpaces(s[n..]);
      DropKeepsChars(s, n, rest);
      DropKeepsNoDoubleHash(s, n);
      (if n >= 2 then " " else [s[0]]) + rest
    else
      var rest := CollapseSpaces(s[1..]);
      DropKeepsChars(s, 1, rest);
      DropKeepsNoDoubleHash(s, 1);
      [s[0]] + rest
  }

  /** Characters drawn from a suffix (or spaces) are drawn from the whole text (or spaces). */
  lemma DropKeepsChars(s: string, n: nat, rest: string)
    requires n <= |s|
    requires forall i :: 0 <= i < |rest| ==> rest[i] in s[n..] || rest[i] == ' '
    ensures forall i :: 0 <= i < |rest| ==> rest[i] in s || rest[i] == ' '
  {
    forall i | 0 <= i < |rest| && rest[i] != ' ' ensures rest[i] in s {
      var k :| 0 <= k < |s[n..]| && s[n..][k] == rest[i];
      assert s[n + k] == rest[i];
    }
  }

  /** A suffix of a text without "##" has none either. */
  lemma DropKeepsNoDoubleHash(s: string, n: nat)
    requires n <= |s|
    ensures NoDoubleHash(s) ==> NoDoubleHash(s[n..])
  {
    if NoDoubleHash(s) {
      forall i | 0 <= i < |s[n..]| - 1 ensures !(s[n..][i] == '#' && s[n..][i + 1] == '#') {
        assert s[n..][i] == s[n + i] && s[n..][i + 1] == s[n + i + 1];
      }
    }
  }

  // ---------------------------------------------------------------------------
  // The whole pipeline
  // ---------------------------------------------------------------------------

  /** Every pass before the whitespace collapse. */
  function Rewrite(s: string): string {
    var a := UnifySpaces(s);
    var b := ResolveGroups(a, '[', ']');
    var c := ResolveGroups(b, '{', '}');
    var d := Fold(c);
    var e := ReplaceNumbers(d);
    var f := CollapseHashes(e);
    var g := StripChars(f);
    AliasPacks(g)
  }

  /** `ScoringRules.Normalize` for a non-null string. */
  function Normalize(s: string): string {
    if IsBlank(s) then "" else Trim(CollapseSpaces(Rewrite(s)))
  }

  /** Every normalised string is canonical, and blank input gives "". */
  lemma NormalizeCanonical(s: string)
    ensures Canonical(Normalize(s))
    ensures IsBlank(s) ==> Normalize(s) == ""
  {
    if !IsBlank(s) {
      RewriteShape(s);
      var c := CollapseSpaces(Rewrite(s));
      assert forall i :: 0 <= i < |c| ==> CanonChar(c[i]);
      TrimCanonical(c);
    }
  }

  /** What the passes before the whitespace collapse guarantee. */
  lemma RewriteShape(s: string)
    ensures forall i :: 0 <= i < |Rewrite(s)| ==> CanonChar(Rewrite(s)[i])
    ensures NoDoubleHash(Rewrite(s))
  {
    var f := CollapseHashes(ReplaceNumbers(Fold(ResolveGroups(ResolveGroups(UnifySpaces(s), '[', ']'), '{', '}'))));
    assert NoDigit(f);
    var g := StripChars(f);
    assert forall i :: 0 <= i < |g| ==> CanonChar(g[i]);
    assert NoDoubleHash(g) by {
      forall i | 0 <= i < |g| - 1 ensures !(g[i] == '#' && g[i + 1] == '#') {
        assert g[i] == '#' ==> f[i] == '#';
        assert g[i + 1] == '#' ==> f[i + 1] == '#';
      }
    }
  }

  /** The final trim keeps every collapsed-string property and removes the end spaces. */
  lemma TrimCanonical(c: string)
    requires forall i :: 0 <= i < |c| ==> CanonChar(c[i])
    requires NoDoubleWhite(c) && NoDoubleHash(c)
    ensures Canonical(Trim(c))
  {
    var r := Trim(c);
    var l := LeadingWhite(c);
    assert forall i :: 0 <= i < |r| ==> r[i] == c[l + i];
    assert NoDoubleWhite(r) by {
      forall i | 0 <= i < |r| - 1 ensures !(IsWhite(r[i]) && IsWhite(r[i + 1])) {
        assert r[i] == c[l + i] && r[i + 1] == c[l + i + 1];
      }
    }
    assert NoDoubleHash(r) by {
      forall i | 0 <= i < |r| - 1 ensures !(r[i] == '#' && r[i + 1] == '#') {
        assert r[i] == c[l + i] && r[i + 1] == c[l + i + 1];
      }
    }
  }

  /** `Normalize` applied to a possibly-null string (`null` gives ""). */
  function NormalizeOpt(s: Option<string>): string {
    if s.None? then "" else Normalize(s.value)
  }
}
