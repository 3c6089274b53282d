/**
 * Properties of `Canon.Normalize`: which passes leave a string alone, how
 * every pass distributes over a space, and from those the fixpoint,
 * idempotence and sentence theorems.
 */
module CanonFacts {
  import opened Opt
  import opened Text
  import opened Canon

  // ---------------------------------------------------------------------------
  // Passes that leave a string unchanged
  // ---------------------------------------------------------------------------

  lemma {:induction false} GroupsIdentity(s: string, open: char, close: char)
    requires open !in s
    ensures ResolveGroups(s, open, close) == s
    decreases |s|
  {
    if |s| > 0 {
      assert open !in s[1..] by {
        forall k | 0 <= k < |s[1..]| ensures s[1..][k] != open {
          assert s[1..][k] == s[k + 1];
        }
      }
      GroupsIdentity(s[1..], open, close);
      assert s == [s[0]] + s[1..];
    }
  }

  lemma {:induction false} NumbersIdentity(s: string)
    requires NoDigit(s)
    ensures ReplaceNumbers(s) == s
    decreases |s|
  {
    if |s| > 0 {
      assert !IsDigit(s[0]);
      assert NoDigit(s[1..]) by {
        forall k | 0 <= k < |s[1..]| ensures !IsDigit(s[1..][k]) {
          assert s[1..][k] == s[k + 1];
        }
      }
      NumbersIdentity(s[1..]);
      assert s == [s[0]] + s[1..];
    }
  }

  lemma {:induction false} HashesIdentity(s: string)
    requires NoDoubleHash(s)
    ensures CollapseHashes(s) == s
    decreases |s|
  {
    if |s| > 0 {
      assert NoDoubleHash(s[1..]) by {
        forall k | 0 <= k < |s[1..]| - 1 ensures !(s[1..][k] == '#' && s[1..][k + 1] == '#') {
          assert s[1..][k] == s[k + 1] && s[1..][k + 1] == s[k + 2];
        }
      }
      HashesIdentity(s[1..]);
      if s[0] == '#' {
        assert HashRun(s) == 1 by {
          if |s| > 1 { assert s[1] != '#'; }
        }
        assert CollapseHashes(s) == "#" + CollapseHashes(s[1..]);
      } else {
        assert CollapseHashes(s) == [s[0]] + CollapseHashes(s[1..]);
      }
      assert s == [s[0]] + s[1..];
    }
  }

  lemma {:induction false} AliasIdentity(s: string)
    requires !IsSubstring("packs", s)
    ensures AliasPacks(s) == s
    decreases |s|
  {
    if |s| > 0 {
      assert !PacksAt(s) by {
        if |s| >= 5 {
          assert s[0..5] != "packs" by { assert !OccursAt("packs", s, 0); }
          assert s[0..5] == [s[0], s[1], s[2], s[3], s[4]];
        }
      }
      assert !IsSubstring("packs", s[1..]) by {
        forall k | 0 <= k <= |s[1..]| - 5 ensures !OccursAt("packs", s[1..], k) {
          assert !OccursAt("packs", s, k + 1);
          assert s[1..][k .. k + 5] == s[k + 1 .. k + 6];
        }
      }
      AliasIdentity(s[1..]);
      assert s == [s[0]] + s[1..];
    }
  }

  lemma {:induction false} CollapseIdentity(s: string)
    requires NoDoubleWhite(s)
    ensures CollapseSpaces(s) == s
    decreases |s|
  {
    if |s| > 0 {
      assert NoDoubleWhite(s[1..]) by {
        forall k | 0 <= k < |s[1..]| - 1 ensures !(IsWhite(s[1..][k]) && IsWhite(s[1..][k + 1])) {
          assert s[1..][k] == s[k + 1] && s[1..][k + 1] == s[k + 2];
        }
      }
      if IsWhite(s[0]) {
        assert LeadingWhite(s) == 1 by {
          if |s| > 1 { assert !IsWhite(s[1]); }
        }
      }
      CollapseIdentity(s[1..]);
      assert s == [s[0]] + s[1..];
    }
  }

  /** A canonical string without "packs" is a fixpoint of `Normalize`. */
  lemma NormalizeFixpoint(t: string)
    requires Canonical(t) && !IsSubstring("packs", t)
    ensures Normalize(t) == t
  {
    if |t| > 0 {
      CanonicalEnds(t);
      assert !IsBlank(t) by { assert !IsWhite(t[0]); }
      RewriteFixpoint(t);
      CollapseIdentity(t);
      TrimOfTrimmed(t);
      assert Normalize(t) == Trim(CollapseSpaces(Rewrite(t)));
    }
  }

  /** A canonical string neither starts nor ends with white space. */
  lemma CanonicalEnds(t: string)
    requires Canonical(t) && |t| > 0
    ensures !IsWhite(t[0]) && !IsWhite(t[|t| - 1])
  {
    assert CanonChar(t[0]) && CanonChar(t[|t| - 1]);
  }

  /** The passes before the collapse leave a canonical string without "packs" alone. */
  lemma RewriteFixpoint(t: string)
    requires forall i :: 0 <= i < |t| ==> CanonChar(t[i])
    requires NoDoubleHash(t) && !IsSubstring("packs", t)
    ensures Rewrite(t) == t
  {
    RewriteOfCanonChars(t);
    AliasIdentity(t);
  }

  /** On canonical characters without "##" only the alias pass can change anything. */
  lemma RewriteOfCanonChars(t: string)
    requires forall i :: 0 <= i < |t| ==> CanonChar(t[i])
    requires NoDoubleHash(t)
    ensures Rewrite(t) == AliasPacks(t)
  {
    UnifyOfCanon(t);
    GroupsOfCanon(t);
    MiddleOfCanon(t);
  }

  lemma UnifyOfCanon(t: string)
    requires forall i :: 0 <= i < |t| ==> CanonChar(t[i])
    ensures UnifySpaces(t) == t
  {
  }

  lemma GroupsOfCanon(t: string)
    requires forall i :: 0 <= i < |t| ==> CanonChar(t[i])
    ensures ResolveGroups(ResolveGroups(t, '[', ']'), '{', '}') == t
  {
    GroupsIdentity(t, '[', ']');
    GroupsIdentity(t, '{', '}');
  }

  lemma MiddleOfCanon(t: string)
    requires forall i :: 0 <= i < |t| ==> CanonChar(t[i])
    requires NoDoubleHash(t)
    ensures StripChars(CollapseHashes(ReplaceNumbers(Fold(t)))) == t
  {
    FoldOfNoUpper(t);
    NumbersIdentity(t);
    HashesIdentity(t);
  }

  /** Normalised text has no upper-case letter. */
  lemma FoldOfNormalized(s: string)
    ensures Fold(Normalize(s)) == Normalize(s)
  {
    NormalizeCanonical(s);
    FoldOfNoUpper(Normalize(s));
  }

  /** `Normalize` is idempotent on every input whose normal form holds no "packs". */
  lemma NormalizeIdempotent(s: string)
    requires !IsSubstring("packs", Normalize(s))
    ensures Normalize(Normalize(s)) == Normalize(s)
  {
    NormalizeCanonical(s);
    NormalizeFixpoint(Normalize(s));
  }

  /**
   * The unconditional `Replace("packs", "pack")` breaks idempotence:
   * "packss" normalises to "packs", which normalises to "pack".
   */
  lemma NotIdempotentOnPackss()
    ensures Normalize("packss") == "packs"
    ensures Normalize(Normalize("packss")) == "pack"
  {
    PackssNormalizes();
    PacksNormalizes();
  }

  lemma PackssNormalizes()
    ensures Normalize("packss") == "packs"
  {
    assert AliasPacks("packss") == "packs";
    NormalizeWord("packss", "packs");
  }

  lemma PacksNormalizes()
    ensures Normalize("packs") == "pack"
  {
    assert AliasPacks("packs") == "pack";
    NormalizeWord("packs", "pack");
  }

  /** Evaluates `Normalize` on one short lower-case letter word, pass by pass. */
  lemma NormalizeWord(w: string, v: string)
    requires |w| > 0 && forall i :: 0 <= i < |w| ==> 'a' <= w[i] <= 'z'
    requires AliasPacks(w) == v
    ensures Normalize(w) == v
  {
    LowerWordShape(w);
    NormalizeUnfold(w);
    LowerRewrite(w);
    AliasKeepsNoWhite(w);
    FinishWord(v);
  }

  lemma LowerWordShape(w: string)
    requires |w| > 0 && forall i :: 0 <= i < |w| ==> 'a' <= w[i] <= 'z'
    ensures NoWhite(w) && !IsBlank(w)
  {
    assert !IsWhite(w[0]);
  }

  lemma LowerRewrite(w: string)
    requires forall i :: 0 <= i < |w| ==> 'a' <= w[i] <= 'z'
    ensures Rewrite(w) == AliasPacks(w)
  {
    assert NoDoubleHash(w);
    RewriteOfCanonChars(w);
  }

  lemma AliasKeepsNoWhite(w: string)
    requires NoWhite(w)
    ensures NoWhite(AliasPacks(w))
  {
    var v := AliasPacks(w);
    forall i | 0 <= i < |v| ensures !IsWhite(v[i]) {
      assert v[i] in w;
    }
  }

  lemma NormalizeUnfold(s: string)
    requires !IsBlank(s)
    ensures Normalize(s) == Trim(CollapseSpaces(Rewrite(s)))
  {
  }

  /** The collapse and the trim leave a non-empty word without whitespace alone. */
  lemma FinishWord(v: string)
    requires |v| > 0 && NoWhite(v)
    ensures Trim(CollapseSpaces(v)) == v
  {
    CollapseIdentity(v);
    TrimOfTrimmed(v);
  }

  // ---------------------------------------------------------------------------
  // Every pass distributes over a whitespace junction
  // ---------------------------------------------------------------------------

  /** `x + z` is joined at whitespace: one side of the seam is a whitespace character. */
  predicate WhiteSeam(x: string, z: string) {
    |x| == 0 || |z| == 0 || IsWhite(x[|x| - 1]) || IsWhite(z[0])
  }

  lemma UnifyAppend(x: string, z: string)
    ensures UnifySpaces(x + z) == UnifySpaces(x) + UnifySpaces(z)
  {
  }

  lemma StripAppend(x: string, z: string)
    ensures StripChars(x + z) == StripChars(x) + StripChars(z)
  {
  }

  /** Scanning for a group's end does not look past the close it finds. */
  lemma {:induction false} FindCloseAppend(s: string, z: string, close: char)
    requires FindClose(s, close).Some?
    ensures FindClose(s + z, close) == FindClose(s, close)
    decreases |s|
  {
    if s[0] != close {
      assert (s + z)[1..] == s[1..] + z;
      FindCloseAppend(s[1..], z, close);
    }
  }

  /** Every `open` in `s` has its group closed inside `s`: the group pass never reads past `s`. */
  predicate Closed(s: string, open: char, close: char)
    decreases |s|
  {
    if |s| == 0 then true
    else if s[0] == open then
      match FindClose(s[1..], close)
      case Some(j) => Closed(s[j + 2..], open, close)
      case None => false
    else Closed(s[1..], open, close)
  }

  lemma {:induction false} ClosedWithoutOpen(s: string, open: char, close: char)
    requires open !in s
    ensures Closed(s, open, close)
    decreases |s|
  {
    if |s| > 0 {
      assert open !in s[1..] by {
        forall k | 0 <= k < |s[1..]| ensures s[1..][k] != open {
          assert s[1..][k] == s[k + 1];
        }
      }
      ClosedWithoutOpen(s[1..], open, close);
    }
  }

  lemma {:induction false} GroupsAppend(x: string, z: string, open: char, close: char)
    requires Closed(x, open, close)
    ensures ResolveGroups(x + z, open, close) == ResolveGroups(x, open, close) + ResolveGroups(z, open, close)
    decreases |x|
  {
    if |x| == 0 {
      assert x + z == z;
    } else if x[0] == open {
      var j := FindClose(x[1..], close).value;
      GroupsAppend(x[j + 2..], z, open, close);
      GroupsAppendOpen(x, z, open, close, j);
    } else {
      GroupsAppend(x[1..], z, open, close);
      GroupsAppendChar(x, z, open, close);
    }
  }

  /** The step of `GroupsAppend` at a group that closes inside `x`. */
  lemma GroupsAppendOpen(x: string, z: string, open: char, close: char, j: nat)
    requires |x| > 0 && x[0] == open && FindClose(x[1..], close) == Some(j)
    requires ResolveGroups(x[j + 2..] + z, open, close) == ResolveGroups(x[j + 2..], open, close) + ResolveGroups(z, open, close)
    ensures ResolveGroups(x + z, open, close) == ResolveGroups(x, open, close) + ResolveGroups(z, open, close)
  {
    GroupStepAppend(x, z, open, close, j);
    GroupStep(x, open, close, j);
    AppendAssoc(ResolveBody(x[1..1 + j]), ResolveGroups(x[j + 2..], open, close), ResolveGroups(z, open, close));
  }

  lemma GroupStepAppend(x: string, z: string, open: char, close: char, j: nat)
    requires |x| > 0 && x[0] == open && FindClose(x[1..], close) == Some(j)
    ensures j + 2 <= |x|
    ensures ResolveGroups(x + z, open, close) == ResolveBody(x[1..1 + j]) + ResolveGroups(x[j + 2..] + z, open, close)
  {
    var s := x + z;
    assert s[0] == x[0];
    assert s[1..] == x[1..] + z;
    FindCloseAppend(x[1..], z, close);
    assert s[1..1 + j] == x[1..1 + j];
    assert s[j + 2..] == x[j + 2..] + z;
    GroupStep(s, open, close, j);
  }

  /** The step of `GroupsAppend` at a character that opens no group. */
  lemma GroupsAppendChar(x: string, z: string, open: char, close: char)
    requires |x| > 0 && x[0] != open
    requires ResolveGroups(x[1..] + z, open, close) == ResolveGroups(x[1..], open, close) + ResolveGroups(z, open, close)
    ensures ResolveGroups(x + z, open, close) == ResolveGroups(x, open, close) + ResolveGroups(z, open, close)
  {
    CharStepAppend(x, z, open, close);
    CharStep(x, open, close);
    AppendAssoc([x[0]], ResolveGroups(x[1..], open, close), ResolveGroups(z, open, close));
  }

  lemma CharStepAppend(x: string, z: string, open: char, close: char)
    requires |x| > 0 && x[0] != open
    ensures ResolveGroups(x + z, open, close) == [x[0]] + ResolveGroups(x[1..] + z, open, close)
  {
    var s := x + z;
    assert s[0] == x[0];
    assert s[1..] == x[1..] + z;
    CharStep(s, open, close);
  }

  /** The group pass at a group it can close. */
  lemma GroupStep(s: string, open: char, close: char, j: nat)
    requires |s| > 0 && s[0] == open && FindClose(s[1..], close) == Some(j)
    ensures j + 2 <= |s|
    ensures ResolveGroups(s, open, close) == ResolveBody(s[1..1 + j]) + ResolveGroups(s[j + 2..], open, close)
  {
    assert ResolveGroups(s, open, close) == ResolveGroup(s, open, close, j);
  }

  /** The group pass at a character that does not open a group. */
  lemma CharStep(s: string, open: char, close: char)
    requires |s| > 0 && s[0] != open
    ensures ResolveGroups(s, open, close) == [s[0]] + ResolveGroups(s[1..], open, close)
  {
  }

  lemma {:induction false} DigitRunAppend(x: string, z: string)
    requires DigitRun(x) < |x| || |z| == 0 || !IsDigit(z[0])
    ensures DigitRun(x + z) == DigitRun(x)
    decreases |x|
  {
    if |x| > 0 && IsDigit(x[0]) {
      assert (x + z)[1..] == x[1..] + z;
      DigitRunAppend(x[1..], z);
    }
  }

  lemma NumberMatchAppend(x: string, z: string)
    requires |x| > 0 && WhiteSeam(x, z)
    ensures NumberMatch(x + z) == NumberMatch(x)
  {
    var d := DigitRun(x);
    DigitRunAppend(x, z);
    if d > 0 && d + 1 < |x| {
      FractionAppend(x, z, d);
    } else if d > 0 {
      NoFractionAtSeam(x, z, d);
    }
  }

  /** A fraction that starts inside `x` reads the same in `x + z`. */
  lemma FractionAppend(x: string, z: string, d: nat)
    requires d == DigitRun(x) && 0 < d && d + 1 < |x| && WhiteSeam(x, z)
    ensures (x + z)[d] == x[d] && (x + z)[d + 1] == x[d + 1]
    ensures IsDigit(x[d + 1]) ==> DigitRun((x + z)[d + 1..]) == DigitRun(x[d + 1..])
  {
    var s := x + z;
    var y := x[d + 1..];
    assert s[d + 1..] == y + z;
    if IsDigit(x[d + 1]) {
      assert y[|y| - 1] == x[|x| - 1];
      SeamStops(y, z);
      DigitRunAppend(y, z);
    }
  }

  /** Across a white seam, a digit run of the left part cannot run into the right part. */
  lemma SeamStops(y: string, z: string)
    requires |y| > 0 && WhiteSeam(y, z)
    ensures DigitRun(y) < |y| || |z| == 0 || !IsDigit(z[0])
  {
    if DigitRun(y) == |y| {
      assert IsDigit(y[|y| - 1]);
    }
  }

  /** A digit run that reaches the seam has no fraction after it. */
  lemma NoFractionAtSeam(x: string, z: string, d: nat)
    requires d == DigitRun(x) && 0 < d && |x| <= d + 1 && WhiteSeam(x, z)
    ensures !(d + 1 < |x + z| && ((x + z)[d] == '.' || (x + z)[d] == ',') && IsDigit((x + z)[d + 1]))
  {
    var s := x + z;
    if d + 1 < |s| {
      if d + 1 == |x| {
        assert s[d] == x[d] && s[d + 1] == z[0];
      } else {
        assert s[d] == z[0];
      }
    }
  }

  lemma {:induction false} NumbersAppend(x: string, z: string)
    requires WhiteSeam(x, z)
    ensures ReplaceNumbers(x + z) == ReplaceNumbers(x) + ReplaceNumbers(z)
    decreases |x|
  {
    if |x| == 0 {
      assert x + z == z;
    } else {
      var n := if IsDigit(x[0]) then NumberMatch(x) else 1;
      if IsDigit(x[0]) {
        NumberMatchAppend(x, z);
      }
      SeamAfterDrop(x, z, n);
      NumbersAppend(x[n..], z);
      NumbersStep(x, z, n);
    }
  }

  /** One step of the numbers pass, on `x` and on `x + z` alike. */
  lemma NumbersStep(x: string, z: string, n: nat)
    requires |x| > 0 && n == (if IsDigit(x[0]) then NumberMatch(x) else 1)
    requires IsDigit(x[0]) ==> NumberMatch(x + z) == NumberMatch(x)
    ensures n <= |x|
    ensures ReplaceNumbers(x) == [if IsDigit(x[0]) then '#' else x[0]] + ReplaceNumbers(x[n..])
    ensures ReplaceNumbers(x + z) == [if IsDigit(x[0]) then '#' else x[0]] + ReplaceNumbers(x[n..] + z)
  {
    var s := x + z;
    assert s[0] == x[0];
    assert s[n..] == x[n..] + z;
  }

  lemma {:induction false} HashRunAppend(x: string, z: string)
    requires HashRun(x) < |x| || |z| == 0 || z[0] != '#'
    ensures HashRun(x + z) == HashRun(x)
    decreases |x|
  {
    if |x| > 0 && x[0] == '#' {
      assert (x + z)[1..] == x[1..] + z;
      HashRunAppend(x[1..], z);
    }
  }

  lemma {:induction false} HashesAppend(x: string, z: string)
    requires WhiteSeam(x, z)
    ensures CollapseHashes(x + z) == CollapseHashes(x) + CollapseHashes(z)
    decreases |x|
  {
    if |x| == 0 {
      assert x + z == z;
    } else {
      var n := if x[0] == '#' then HashRun(x) else 1;
      if x[0] == '#' {
        assert n < |x| || |z| == 0 || z[0] != '#' by {
          if n == |x| && |z| > 0 { assert x[|x| - 1] == '#'; }
        }
        HashRunAppend(x, z);
      }
      SeamAfterDrop(x, z, n);
      HashesAppend(x[n..], z);
      HashesStep(x, z, n);
      ConsAppend(x[0], CollapseHashes(x[n..]), CollapseHashes(z));
    }
  }

  /** One step of the hash-run pass, on `x` and on `x + z` alike. */
  lemma HashesStep(x: string, z: string, n: nat)
    requires |x| > 0 && n == (if x[0] == '#' then HashRun(x) else 1)
    requires x[0] == '#' ==> HashRun(x + z) == HashRun(x)
    ensures n <= |x|
    ensures CollapseHashes(x) == [x[0]] + CollapseHashes(x[n..])
    ensures CollapseHashes(x + z) == [x[0]] + CollapseHashes(x[n..] + z)
  {
    var s := x + z;
    assert s[0] == x[0];
    assert s[n..] == x[n..] + z;
  }

  /** Dropping a prefix of `x` keeps a whitespace seam. */
  lemma SeamAfterDrop(x: string, z: string, n: nat)
    requires n <= |x| && WhiteSeam(x, z)
    ensures WhiteSeam(x[n..], z)
  {
    if n < |x| {
      assert x[n..][|x[n..]| - 1] == x[|x| - 1];
    }
  }

  lemma {:induction false} AliasAppend(x: string, z: string)
    requires WhiteSeam(x, z)
    ensures AliasPacks(x + z) == AliasPacks(x) + AliasPacks(z)
    decreases |x|
  {
    if |x| == 0 {
      assert x + z == z;
    } else {
      PacksAtAppend(x, z);
      var n := if PacksAt(x) then 5 else 1;
      SeamAfterDrop(x, z, n);
      AliasAppend(x[n..], z);
      AliasStep(x, z, n);
    }
  }

  /** The `packs` test at the front does not look past a whitespace seam. */
  lemma PacksAtAppend(x: string, z: string)
    requires |x| > 0 && WhiteSeam(x, z)
    ensures PacksAt(x + z) == PacksAt(x)
  {
    var s := x + z;
    if |x| < 5 && |s| >= 5 {
      assert s[|x| - 1] == x[|x| - 1] && s[|x|] == z[0];
    } else if |x| >= 5 {
      assert s[0] == x[0] && s[1] == x[1] && s[2] == x[2] && s[3] == x[3] && s[4] == x[4];
    }
  }

  /** One step of the alias pass, on `x` and on `x + z` alike. */
  lemma AliasStep(x: string, z: string, n: nat)
    requires |x| > 0 && n == (if PacksAt(x) then 5 else 1)
    requires PacksAt(x + z) == PacksAt(x)
    ensures n <= |x|
    ensures AliasPacks(x) == (if PacksAt(x) then "pack" else [x[0]]) + AliasPacks(x[n..])
    ensures AliasPacks(x + z) == (if PacksAt(x) then "pack" else [x[0]]) + AliasPacks(x[n..] + z)
  {
    var s := x + z;
    assert s[0] == x[0];
    assert s[n..] == x[n..] + z;
  }

  lemma {:induction false} CollapseAppend(x: string, z: string)
    requires SolidSeam(x, z)
    ensures CollapseSpaces(x + z) == CollapseSpaces(x) + CollapseSpaces(z)
    decreases |x|
  {
    if |x| == 0 {
      assert x + z == z;
    } else {
      var n := if IsWhite(x[0]) then LeadingWhite(x) else 1;
      if IsWhite(x[0]) {
        LeadingWhiteSeam(x, z);
        LeadingWhiteAppend(x, z);
      }
      SolidSeamAfterDrop(x, z, n);
      CollapseAppend(x[n..], z);
      CollapseStep(x, z, n);
      AppendAssoc(if n >= 2 then " " else [x[0]], CollapseSpaces(x[n..]), CollapseSpaces(z));
    }
  }

  /** A seam with a non-white side on the left or right. */
  predicate SolidSeam(x: string, z: string) {
    |x| == 0 || |z| == 0 || !IsWhite(x[|x| - 1]) || !IsWhite(z[0])
  }

  lemma SolidSeamAfterDrop(x: string, z: string, n: nat)
    requires n <= |x| && SolidSeam(x, z)
    ensures SolidSeam(x[n..], z)
  {
    if n < |x| {
      assert x[n..][|x[n..]| - 1] == x[|x| - 1];
    }
  }

  /** A white run that covers all of `x` ends in a white character. */
  lemma LeadingWhiteSeam(x: string, z: string)
    requires |x| > 0 && SolidSeam(x, z)
    ensures LeadingWhite(x) < |x| || |z| == 0 || !IsWhite(z[0])
  {
    if LeadingWhite(x) == |x| && |z| > 0 {
      assert IsWhite(x[|x| - 1]);
    }
  }

  /** One step of the whitespace collapse, on `x` and on `x + z` alike. */
  lemma CollapseStep(x: string, z: string, n: nat)
    requires |x| > 0 && n == (if IsWhite(x[0]) then LeadingWhite(x) else 1)
    requires IsWhite(x[0]) ==> LeadingWhite(x + z) == LeadingWhite(x)
    ensures n <= |x|
    ensures CollapseSpaces(x) == (if n >= 2 then " " else [x[0]]) + CollapseSpaces(x[n..])
    ensures CollapseSpaces(x + z) == (if n >= 2 then " " else [x[0]]) + CollapseSpaces(x[n..] + z)
  {
    var s := x + z;
    assert s[0] == x[0];
    assert s[n..] == x[n..] + z;
  }

  lemma {:induction false} LeadingWhiteAppend(x: string, z: string)
    requires LeadingWhite(x) < |x| || |z| == 0 || !IsWhite(z[0])
    ensures LeadingWhite(x + z) == LeadingWhite(x)
    decreases |x|
  {
    if |x| > 0 && IsWhite(x[0]) {
      assert (x + z)[1..] == x[1..] + z;
      LeadingWhiteAppend(x[1..], z);
    }
  }

  // ---------------------------------------------------------------------------
  // Sentences: words joined by single spaces
  // ---------------------------------------------------------------------------

  /** The group passes of `x` stay inside `x`. */
  predicate GroupsSafe(x: string) {
    var u := UnifySpaces(x);
    Closed(u, '[', ']') && Closed(ResolveGroups(u, '[', ']'), '{', '}')
  }

  lemma UnifySpace(x: string, y: string)
    ensures UnifySpaces(x + " " + y) == UnifySpaces(x) + " " + UnifySpaces(y)
  {
    UnifyAppend(x, " " + y);
    UnifyAppend(" ", y);
    assert x + " " + y == x + (" " + y);
  }

  lemma GroupsSpace(x: string, y: string, open: char, close: char)
    requires Closed(x, open, close) && open != ' '
    ensures ResolveGroups(x + " " + y, open, close) == ResolveGroups(x, open, close) + " " + ResolveGroups(y, open, close)
  {
    var sp := " ";
    assert x + " " + y == x + (sp + y);
    GroupsAppend(x, sp + y, open, close);
    ClosedWithoutOpen(sp, open, close);
    GroupsAppend(sp, y, open, close);
    assert ResolveGroups(sp, open, close) == sp;
  }

  lemma FoldSpace(x: string, y: string)
    ensures Fold(x + " " + y) == Fold(x) + " " + Fold(y)
  {
    FoldAppend(x, " " + y);
    FoldAppend(" ", y);
    assert x + " " + y == x + (" " + y);
  }

  lemma NumbersSpace(x: string, y: string)
    ensures ReplaceNumbers(x + " " + y) == ReplaceNumbers(x) + " " + ReplaceNumbers(y)
  {
    var sp := " ";
    assert x + " " + y == x + (sp + y);
    NumbersAppend(x, sp + y);
    NumbersAppend(sp, y);
    assert ReplaceNumbers(sp) == sp;
  }

  lemma HashesSpace(x: string, y: string)
    ensures CollapseHashes(x + " " + y) == CollapseHashes(x) + " " + CollapseHashes(y)
  {
    var sp := " ";
    assert x + " " + y == x + (sp + y);
    HashesAppend(x, sp + y);
    HashesAppend(sp, y);
    assert CollapseHashes(sp) == sp;
  }

  lemma StripSpace(x: string, y: string)
    ensures StripChars(x + " " + y) == StripChars(x) + " " + StripChars(y)
  {
    StripAppend(x, " " + y);
    StripAppend(" ", y);
    assert x + " " + y == x + (" " + y);
  }

  lemma AliasSpace(x: string, y: string)
    ensures AliasPacks(x + " " + y) == AliasPacks(x) + " " + AliasPacks(y)
  {
    var sp := " ";
    assert x + " " + y == x + (sp + y);
    AliasAppend(x, sp + y);
    AliasAppend(sp, y);
    assert AliasPacks(sp) == sp;
  }

  /** Every pass before the collapse distributes over a single space. */
  lemma RewriteSpace(x: string, y: string)
    requires GroupsSafe(x)
    ensures Rewrite(x + " " + y) == Rewrite(x) + " " + Rewrite(y)
  {
    UnifySpace(x, y);
    var ux, uy := UnifySpaces(x), UnifySpaces(y);
    GroupsSpace(ux, uy, '[', ']');
    var bx, by2 := ResolveGroups(ux, '[', ']'), ResolveGroups(uy, '[', ']');
    GroupsSpace(bx, by2, '{', '}');
    var cx, cy := ResolveGroups(bx, '{', '}'), ResolveGroups(by2, '{', '}');
    FoldSpace(cx, cy);
    var dx, dy := Fold(cx), Fold(cy);
    NumbersSpace(dx, dy);
    var ex, ey := ReplaceNumbers(dx), ReplaceNumbers(dy);
    HashesSpace(ex, ey);
    var fx, fy := CollapseHashes(ex), CollapseHashes(ey);
    StripSpace(fx, fy);
    var gx, gy := StripChars(fx), StripChars(fy);
    AliasSpace(gx, gy);
  }

  /** Each word rewritten on its own. */
  function RewriteAll(ws: seq<string>): (vs: seq<string>)
    ensures |vs| == |ws|
    ensures forall i :: 0 <= i < |ws| ==> vs[i] == Rewrite(ws[i])
  {
    if |ws| == 0 then [] else [Rewrite(ws[0])] + RewriteAll(ws[1..])
  }

  lemma {:induction false} RewriteSentence(ws: seq<string>)
    requires forall i :: 0 <= i < |ws| ==> GroupsSafe(ws[i])
    ensures Rewrite(Join(ws, " ")) == Join(RewriteAll(ws), " ")
    decreases |ws|
  {
    if |ws| == 0 {
      assert Rewrite("") == "" by {
        assert UnifySpaces("") == "";
      }
    } else if |ws| > 1 {
      RewriteSentence(ws[1..]);
      RewriteSpace(ws[0], Join(ws[1..], " "));
      assert RewriteAll(ws)[1..] == RewriteAll(ws[1..]);
    }
  }

  /** A word of letters, digits, '-' and '#'. */
  predicate Word(w: string) {
    |w| > 0 && forall i :: 0 <= i < |w| ==> WordChar(w[i])
  }

  predicate WordChar(c: char) {
    ('a' <= c <= 'z') || ('A' <= c <= 'Z') || IsDigit(c) || c == '-' || c == '#'
  }

  /** Characters that every pass after the group passes leaves as they are, and that are not white. */
  predicate Solid(s: string) {
    forall i :: 0 <= i < |s| ==> StripKeeps(s[i]) && s[i] != ' ' && !('A' <= s[i] <= 'Z')
  }

  /** A word has no group brackets and nothing the unify pass touches. */
  lemma WordGroupFree(w: string)
    requires Word(w)
    ensures UnifySpaces(w) == w
    ensures GroupsSafe(w)
    ensures ResolveGroups(ResolveGroups(w, '[', ']'), '{', '}') == w
  {
    assert UnifySpaces(w) == w;
    ClosedWithoutOpen(w, '[', ']');
    GroupsIdentity(w, '[', ']');
    ClosedWithoutOpen(w, '{', '}');
    GroupsIdentity(w, '{', '}');
  }

  lemma FoldWord(w: string)
    requires Word(w)
    ensures |Fold(w)| > 0 && Solid(Fold(w))
  {
  }

  lemma NumbersSolid(d: string)
    requires |d| > 0 && Solid(d)
    ensures |ReplaceNumbers(d)| > 0 && Solid(ReplaceNumbers(d))
  {
    var e := ReplaceNumbers(d);
    forall i | 0 <= i < |e| ensures StripKeeps(e[i]) && e[i] != ' ' && !('A' <= e[i] <= 'Z') {
      if e[i] != '#' {
        var k :| 0 <= k < |d| && d[k] == e[i];
      }
    }
  }

  lemma HashesSolid(e: string)
    requires |e| > 0 && Solid(e)
    ensures |CollapseHashes(e)| > 0 && Solid(CollapseHashes(e))
  {
    var f := CollapseHashes(e);
    forall i | 0 <= i < |f| ensures StripKeeps(f[i]) && f[i] != ' ' && !('A' <= f[i] <= 'Z') {
      var k :| 0 <= k < |e| && e[k] == f[i];
    }
  }

  lemma StripSolid(f: string)
    requires Solid(f)
    ensures StripChars(f) == f
  {
  }

  lemma AliasSolid(g: string)
    requires |g| > 0 && Solid(g)
    ensures |AliasPacks(g)| > 0 && NoWhite(AliasPacks(g))
  {
    var v := AliasPacks(g);
    forall i | 0 <= i < |v| ensures !IsWhite(v[i]) {
      var k :| 0 <= k < |g| && g[k] == v[i];
    }
  }

  lemma RewriteOfWord(w: string)
    requires Word(w)
    ensures Rewrite(w) == AliasPacks(StripChars(CollapseHashes(ReplaceNumbers(Fold(w)))))
  {
    WordGroupFree(w);
  }

  /** A word rewrites to a non-empty string without whitespace, and its groups are trivially safe. */
  lemma WordRewrite(w: string)
    requires Word(w)
    ensures GroupsSafe(w)
    ensures |Rewrite(w)| > 0 && NoWhite(Rewrite(w))
  {
    WordGroupFree(w);
    RewriteOfWord(w);
    FoldWord(w);
    var d := Fold(w);
    NumbersSolid(d);
    var e := ReplaceNumbers(d);
    HashesSolid(e);
    var f := CollapseHashes(e);
    StripSolid(f);
    AliasSolid(f);
  }

  /** A word of ASCII letters only is just lower-cased, then aliased. */
  lemma LettersRewrite(w: string)
    requires |w| > 0 && forall i :: 0 <= i < |w| ==> ('a' <= w[i] <= 'z') || ('A' <= w[i] <= 'Z')
    ensures Rewrite(w) == AliasPacks(Fold(w))
  {
    assert Word(w);
    RewriteOfWord(w);
    FoldLetters(w);
    LowerMiddle(Fold(w));
  }

  /** Folding ASCII letters gives lower-case letters. */
  lemma FoldLetters(w: string)
    requires forall i :: 0 <= i < |w| ==> ('a' <= w[i] <= 'z') || ('A' <= w[i] <= 'Z')
    ensures forall i :: 0 <= i < |Fold(w)| ==> 'a' <= Fold(w)[i] <= 'z'
  {
    var d := Fold(w);
    forall i | 0 <= i < |d| ensures 'a' <= d[i] <= 'z' {
      assert d[i] == FoldChar(w[i]);
    }
  }

  /** The numbers, hash and strip passes leave lower-case letters alone. */
  lemma LowerMiddle(d: string)
    requires forall i :: 0 <= i < |d| ==> 'a' <= d[i] <= 'z'
    ensures StripChars(CollapseHashes(ReplaceNumbers(d))) == d
  {
    NumbersIdentity(d);
    HashesIdentity(d);
    assert StripChars(d) == d;
  }

  lemma {:induction false} JoinShape(vs: seq<string>)
    requires |vs| > 0
    requires forall i :: 0 <= i < |vs| ==> |vs[i]| > 0 && NoWhite(vs[i])
    ensures |Join(vs, " ")| > 0
    ensures Join(vs, " ")[0] == vs[0][0]
    ensures Join(vs, " ")[|Join(vs, " ")| - 1] == vs[|vs| - 1][|vs[|vs| - 1]| - 1]
    ensures NoDoubleWhite(Join(vs, " "))
    decreases |vs|
  {
    if |vs| > 1 {
      JoinShape(vs[1..]);
      var a := vs[0];
      var b := Join(vs[1..], " ");
      var j := a + " " + b;
      assert Join(vs, " ") == j;
      forall i | 0 <= i < |j| - 1 ensures !(IsWhite(j[i]) && IsWhite(j[i + 1])) {
        if i < |a| - 1 {
          assert j[i] == a[i];
        } else if i == |a| - 1 {
          assert j[i] == a[i];
        } else if i == |a| {
          assert j[i + 1] == b[0];
        } else {
          assert j[i] == b[i - |a| - 1] && j[i + 1] == b[i - |a|];
        }
      }
    } else {
      assert Join(vs, " ") == vs[0];
      forall i | 0 <= i < |vs[0]| - 1 ensures !(IsWhite(vs[0][i]) && IsWhite(vs[0][i + 1])) {
        assert !IsWhite(vs[0][i]);
      }
    }
  }

  /** `w` is a word that the passes before the collapse turn into `v`. */
  predicate RewritesTo(w: string, v: string) {
    Word(w) && Rewrite(w) == v
  }

  /** Word by word, `ws` rewrites to `vs`. */
  predicate WordsRewrite(ws: seq<string>, vs: seq<string>) {
    |ws| == |vs| && forall i :: 0 <= i < |ws| ==> RewritesTo(ws[i], vs[i])
  }

  /**
   * Normalising words joined by single spaces gives the rewritten words
   * joined by single spaces.
   */
  lemma NormalizeSentence(ws: seq<string>, vs: seq<string>)
    requires |ws| > 0 && WordsRewrite(ws, vs)
    ensures Normalize(Join(ws, " ")) == Join(vs, " ")
  {
    WordsRewriteFacts(ws, vs);
    RewriteSentence(ws);
    SentenceNotBlank(ws, vs);
    SentenceSettled(vs);
  }

  /** Words that rewrite one by one rewrite, joined by single spaces, to the rewritten words joined. */
  lemma RewriteWords(ws: seq<string>, vs: seq<string>)
    requires WordsRewrite(ws, vs)
    ensures Rewrite(Join(ws, " ")) == Join(vs, " ")
  {
    WordsRewriteFacts(ws, vs);
    RewriteSentence(ws);
  }

  /** The rewritten words, joined: no white space at either end, none doubled. */
  lemma RewrittenShape(ws: seq<string>, vs: seq<string>)
    requires |ws| > 0 && WordsRewrite(ws, vs)
    ensures var j := Join(vs, " ");
      |j| > 0 && !IsWhite(j[0]) && !IsWhite(j[|j| - 1]) && NoDoubleWhite(j)
  {
    WordsRewriteFacts(ws, vs);
    JoinShape(vs);
  }

  /** Each word of a rewriting is group-safe and rewrites to a non-empty word without white space. */
  lemma WordsRewriteFacts(ws: seq<string>, vs: seq<string>)
    requires WordsRewrite(ws, vs)
    ensures forall i :: 0 <= i < |ws| ==> GroupsSafe(ws[i])
    ensures forall i :: 0 <= i < |vs| ==> |vs[i]| > 0 && NoWhite(vs[i])
    ensures RewriteAll(ws) == vs
  {
    forall i | 0 <= i < |ws| ensures GroupsSafe(ws[i]) && |vs[i]| > 0 && NoWhite(vs[i]) {
      assert RewritesTo(ws[i], vs[i]);
      WordRewrite(ws[i]);
    }
    forall i | 0 <= i < |ws| ensures RewriteAll(ws)[i] == vs[i] {
      assert RewritesTo(ws[i], vs[i]);
    }
  }

  /** A sentence of words is not blank. */
  lemma SentenceNotBlank(ws: seq<string>, vs: seq<string>)
    requires |ws| > 0 && WordsRewrite(ws, vs)
    ensures !IsBlank(Join(ws, " "))
  {
    forall i | 0 <= i < |ws| ensures |ws[i]| > 0 && NoWhite(ws[i]) {
      assert RewritesTo(ws[i], vs[i]);
      assert forall k :: 0 <= k < |ws[i]| ==> WordChar(ws[i][k]);
    }
    JoinShape(ws);
    assert !IsWhite(Join(ws, " ")[0]);
  }

  /** Collapsing and trimming leave a sentence of non-empty words without white space as it is. */
  lemma SentenceSettled(vs: seq<string>)
    requires |vs| > 0 && forall i :: 0 <= i < |vs| ==> |vs[i]| > 0 && NoWhite(vs[i])
    ensures Trim(CollapseSpaces(Join(vs, " "))) == Join(vs, " ")
  {
    var t := Join(vs, " ");
    JoinShape(vs);
    CollapseIdentity(t);
    TrimOfTrimmed(t);
  }

  /** Without a 'k' or without a 'p' there is no "packs" to alias. */
  lemma NoPacks(s: string)
    requires 'k' !in s || 'p' !in s
    ensures AliasPacks(s) == s
  {
    assert !IsSubstring("packs", s) by {
      if IsSubstring("packs", s) {
        assert 'k' in "packs" && 'p' in "packs";
        SubstringChar("packs", s, 'k');
        SubstringChar("packs", s, 'p');
      }
    }
    AliasIdentity(s);
  }

  /** A word of ASCII letters rewrites to its lower-case form after the alias. */
  lemma LettersAlias(w: string, v: string)
    requires |w| > 0 && forall i :: 0 <= i < |w| ==> ('a' <= w[i] <= 'z') || ('A' <= w[i] <= 'Z')
    requires AliasPacks(Fold(w)) == v
    ensures RewritesTo(w, v)
  {
    LettersRewrite(w);
  }

  /** A word of ASCII letters without "packs" rewrites to its lower-case form. */
  lemma Letters(w: string, v: string)
    requires |w| > 0 && forall i :: 0 <= i < |w| ==> ('a' <= w[i] <= 'z') || ('A' <= w[i] <= 'Z')
    requires Fold(w) == v && ('k' !in v || 'p' !in v)
    ensures RewritesTo(w, v)
  {
    NoPacks(v);
    LettersAlias(w, v);
  }
}
