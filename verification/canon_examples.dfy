/**
 * Which texts `Normalize` sends to the same key: a number at the front of a
 * text, whatever its digits, normalises as a `#` does, and a `[..]` group is
 * replaced by its last option between spaces.
 */
module CanonExamples {
  import opened Opt
  import opened Text
  import opened Canon
  import opened CanonFacts
  import opened Sentences

  // ---------------------------------------------------------------------------
  // Numbers
  // ---------------------------------------------------------------------------

  /** A non-empty run of ASCII digits. */
  predicate DigitString(d: string) {
    |d| > 0 && forall i :: 0 <= i < |d| ==> IsDigit(d[i])
  }

  /** A text that may follow a number without extending its match or opening a group. */
  predicate NumberEnds(rest: string) {
    |rest| == 0 || (!IsDigit(rest[0]) && rest[0] != '.' && rest[0] != ',' && rest[0] != '[' && rest[0] != '{')
  }

  lemma {:induction false} DigitRunPrefix(d: string, f: string)
    requires forall i :: 0 <= i < |d| ==> IsDigit(d[i])
    requires |f| == 0 || !IsDigit(f[0])
    ensures DigitRun(d + f) == |d|
    decreases |d|
  {
    if |d| > 0 {
      assert (d + f)[1..] == d[1..] + f;
      DigitRunPrefix(d[1..], f);
    } else {
      assert d + f == f;
    }
  }

  /** The number pass turns a leading digit run into one `#`. */
  lemma NumbersOfPrefix(d: string, f: string)
    requires DigitString(d)
    requires |f| == 0 || (!IsDigit(f[0]) && f[0] != '.' && f[0] != ',')
    ensures ReplaceNumbers(d + f) == "#" + ReplaceNumbers(f)
    ensures ReplaceNumbers("#" + f) == "#" + ReplaceNumbers(f)
  {
    DigitRunPrefix(d, f);
    assert NumberMatch(d + f) == |d|;
    assert (d + f)[|d|..] == f;
    assert ("#" + f)[1..] == f;
  }

  /** The passes before the number pass move a leading digit run or `#` to the front unchanged. */
  lemma PrefixThroughGroups(p: string, rest: string)
    requires forall i :: 0 <= i < |p| ==> IsDigit(p[i]) || p[i] == '#'
    ensures Fold(ResolveGroups(ResolveGroups(UnifySpaces(p + rest), '[', ']'), '{', '}'))
      == p + Fold(ResolveGroups(ResolveGroups(UnifySpaces(rest), '[', ']'), '{', '}'))
  {
    UnifyAppend(p, rest);
    assert UnifySpaces(p) == p;
    var u := UnifySpaces(rest);
    ClosedWithoutOpen(p, '[', ']');
    GroupsAppend(p, u, '[', ']');
    GroupsIdentity(p, '[', ']');
    var b := ResolveGroups(u, '[', ']');
    ClosedWithoutOpen(p, '{', '}');
    GroupsAppend(p, b, '{', '}');
    GroupsIdentity(p, '{', '}');
    var c := ResolveGroups(b, '{', '}');
    FoldAppend(p, c);
    assert Fold(p) == p;
  }

  /** What reaches the number pass after a leading number starts with a character that ends it. */
  lemma RestEndsNumber(rest: string)
    requires NumberEnds(rest)
    ensures var f := Fold(ResolveGroups(ResolveGroups(UnifySpaces(rest), '[', ']'), '{', '}'));
      |f| == 0 || (!IsDigit(f[0]) && f[0] != '.' && f[0] != ',')
  {
    if |rest| > 0 {
      var u := UnifySpaces(rest);
      assert u[0] == UnifyChar(rest[0]);
      var b := ResolveGroups(u, '[', ']');
      var c := ResolveGroups(b, '{', '}');
      assert c[0] == u[0];
    } else {
      assert UnifySpaces(rest) == "";
    }
  }

  /** A leading number normalises as a `#` does: its digits never reach the key. */
  lemma NumberPrefix(d: string, rest: string)
    requires DigitString(d) && NumberEnds(rest)
    ensures Normalize(d + rest) == Normalize("#" + rest)
  {
    NumberPrefixRewrite(d, rest);
    HeadNotBlank(d, rest);
    HeadNotBlank("#", rest);
    SameNormal(d + rest, "#" + rest);
  }

  lemma NumberPrefixRewrite(d: string, rest: string)
    requires DigitString(d) && NumberEnds(rest)
    ensures Rewrite(d + rest) == Rewrite("#" + rest)
  {
    PrefixThroughGroups(d, rest);
    PrefixThroughGroups("#", rest);
    RestEndsNumber(rest);
    var f := Fold(ResolveGroups(ResolveGroups(UnifySpaces(rest), '[', ']'), '{', '}'));
    NumbersOfPrefix(d, f);
  }

  /** A text that starts with a non-white character is not blank, whatever follows. */
  lemma HeadNotBlank(x: string, rest: string)
    requires |x| > 0 && !IsWhite(x[0])
    ensures !IsBlank(x + rest)
  {
    assert (x + rest)[0] == x[0];
  }

  /** Two non-blank texts with the same rewrite have the same normal form. */
  lemma SameNormal(a: string, b: string)
    requires Rewrite(a) == Rewrite(b) && !IsBlank(a) && !IsBlank(b)
    ensures Normalize(a) == Normalize(b)
  {
  }

  /** Two texts that differ only in the number at their front share a key. */
  lemma NumbersAlike(d: string, d': string, rest: string)
    requires DigitString(d) && DigitString(d') && NumberEnds(rest)
    ensures Normalize(d + rest) == Normalize(d' + rest)
  {
    NumberPrefix(d, rest);
    NumberPrefix(d', rest);
  }

  /** The words after the number in the pack-size texts, and their rewritten forms. */
  const PackSizeWords: seq<string> := ["increased", "Pack", "Size"]
  const PackSizeKey: seq<string> := ["increased", "pack", "size"]

  lemma IncreasedWord()
    ensures WordsRewrite(["increased"], ["increased"])
  {
    assert Fold("increased") == "increased";
    PlainSegment(["increased"], ["increased"]);
  }

  lemma PackCapFold()
    ensures Fold("Pack") == "pack"
  {
  }

  lemma PackAlias()
    ensures AliasPacks("pack") == "pack"
  {
  }

  lemma PackCapLetters()
    ensures forall i :: 0 <= i < |"Pack"| ==> ('a' <= "Pack"[i] <= 'z') || ('A' <= "Pack"[i] <= 'Z')
  {
  }

  /** "Pack" is lower-cased and left alone by the alias. */
  lemma PackCapWord()
    ensures WordsRewrite(["Pack"], ["pack"])
  {
    PackCapFold();
    PackAlias();
    PackCapLetters();
    LettersAlias("Pack", "pack");
  }

  lemma SizeWord()
    ensures WordsRewrite(["Size"], ["size"])
  {
    assert Fold("Size") == "size";
    PlainSegment(["Size"], ["size"]);
  }

  lemma PackSizeWordsRewrite()
    ensures WordsRewrite(PackSizeWords, PackSizeKey)
  {
    IncreasedWord();
    PackCapWord();
    SizeWord();
    WordsRewrite3(["increased"], ["increased"], ["Pack"], ["pack"], ["Size"], ["size"]);
    assert PackSizeWords == ["increased"] + ["Pack"] + ["Size"];
    assert PackSizeKey == ["increased"] + ["pack"] + ["size"];
  }

  /** "# increased Pack Size", as words, normalises word by word. */
  lemma HashSentence()
    ensures Normalize(Join(["#"] + PackSizeWords, " ")) == Join(["#"] + PackSizeKey, " ")
  {
    NumberWord();
    PackSizeWordsRewrite();
    WordsRewriteAppend(["#"], ["#"], PackSizeWords, PackSizeKey);
    NormalizeSentence(["#"] + PackSizeWords, ["#"] + PackSizeKey);
  }

  /** The strip pass blanks the `%` after the `#`. */
  lemma PercentRewrite()
    ensures Rewrite("#%") == "# "
    ensures GroupsSafe("#%")
  {
    assert UnifySpaces("#%") == "#%";
    ClosedWithoutOpen("#%", '[', ']');
    GroupsIdentity("#%", '[', ']');
    ClosedWithoutOpen("#%", '{', '}');
    GroupsIdentity("#%", '{', '}');
    assert Fold("#%") == "#%";
    assert ReplaceNumbers("#%") == "#%";
    assert CollapseHashes("#%") == "#%";
    assert StripChars("#%") == "# ";
    NoPacks("# ");
  }

  /** The words after the number rewrite, joined, to the key's words, joined. */
  lemma PackSizeRewrite()
    ensures Rewrite(Join(PackSizeWords, " ")) == Join(PackSizeKey, " ")
  {
    PackSizeWordsRewrite();
    RewriteWords(PackSizeWords, PackSizeKey);
  }

  /** The key's words joined: no white space at either end, none doubled. */
  lemma PackSizeKeyShape()
    ensures var j := Join(PackSizeKey, " ");
      |j| > 0 && !IsWhite(j[0]) && !IsWhite(j[|j| - 1]) && NoDoubleWhite(j)
  {
    PackSizeWordsRewrite();
    RewrittenShape(PackSizeWords, PackSizeKey);
  }

  /** Two spaces in front of a text without doubled white space collapse into one. */
  lemma GapStep(j: string)
    requires |j| > 0 && !IsWhite(j[0]) && NoDoubleWhite(j)
    ensures CollapseSpaces("  " + j) == " " + j
  {
    CollapseIdentity(j);
    var x := "  ";
    assert LeadingWhite(x) == 2 by {
      assert x[1..] == " ";
      assert LeadingWhite(" ") == 1 by { assert " "[1..] == ""; }
    }
    LeadingWhiteAppend(x, j);
    CollapseStep(x, j, 2);
    assert x[2..] + j == j;
  }

  /** Two spaces between `#` and a collapsed text become one. */
  lemma CollapseGap(j: string)
    requires |j| > 0 && !IsWhite(j[0]) && NoDoubleWhite(j)
    ensures CollapseSpaces("#" + ("  " + j)) == "#" + " " + j
  {
    CollapseAfter("#", j);
  }

  /** Two spaces between a collapsed text ending in a non-white character and a collapsed text become one. */
  lemma CollapseAfter(x: string, j: string)
    requires |x| > 0 && !IsWhite(x[|x| - 1]) && NoDoubleWhite(x)
    requires |j| > 0 && !IsWhite(j[0]) && NoDoubleWhite(j)
    ensures CollapseSpaces(x + ("  " + j)) == x + " " + j
  {
    GapStep(j);
    CollapseAppend(x, "  " + j);
    CollapseIdentity(x);
    assert x + (" " + j) == x + " " + j;
  }

  /** A `#%` word in front of a text rewrites to `#`, two spaces and the rewritten text. */
  lemma PercentFront(w: string)
    ensures Rewrite("#%" + " " + w) == "#" + ("  " + Rewrite(w))
  {
    PercentRewrite();
    RewriteSpace("#%", w);
    HashSpaces(Rewrite(w));
  }

  /** Regrouping the spaces after '#'. */
  lemma HashSpaces(r: string)
    ensures "# " + " " + r == "#" + ("  " + r)
  {
  }

  /** A text whose passes give `#`, two spaces and a collapsed `j` normalises to `#`, one space and `j`. */
  lemma NormalizeOfGap(s: string, j: string)
    requires |s| > 0 && !IsWhite(s[0])
    requires Rewrite(s) == "#" + ("  " + j)
    requires |j| > 0 && !IsWhite(j[0]) && !IsWhite(j[|j| - 1]) && NoDoubleWhite(j)
    ensures Normalize(s) == "#" + " " + j
  {
    assert !IsBlank(s);
    CollapseGap(j);
    TrimOfTrimmed("#" + " " + j);
  }

  /** "#% increased Pack Size": the blanked `%` and the space after it collapse into one. */
  lemma PercentSentence()
    ensures Normalize("#%" + " " + Join(PackSizeWords, " ")) == "#" + " " + Join(PackSizeKey, " ")
  {
    var w := Join(PackSizeWords, " ");
    PercentFront(w);
    PackSizeRewrite();
    PackSizeKeyShape();
    var s := "#%" + " " + w;
    assert s[0] == '#';
    NormalizeOfGap(s, Join(PackSizeKey, " "));
  }

  lemma PackSizeTexts()
    ensures Join(PackSizeWords, " ") == "increased Pack Size"
    ensures Join(["#"] + PackSizeWords, " ") == "# increased Pack Size"
  {
  }

  lemma PackSizeKeyText()
    ensures Join(PackSizeKey, " ") == "increased pack size"
    ensures Join(["#"] + PackSizeKey, " ") == "# increased pack size"
  {
  }

  /**
   * "12% increased Pack Size", "7% increased Pack Size" and
   * "# increased Pack Size" all normalise to "# increased pack size".
   */
  lemma PackSizeSeeds()
    ensures Normalize("12% increased Pack Size") == "# increased pack size"
    ensures Normalize("7% increased Pack Size") == "# increased pack size"
    ensures Normalize("# increased Pack Size") == "# increased pack size"
  {
    var rest := "% increased Pack Size";
    PercentSeed(rest);
    TwelveSpelled(rest);
    NumberPrefix("12", rest);
    SevenSpelled(rest);
    NumberPrefix("7", rest);
    HashSeed();
  }

  /** "#% increased Pack Size" normalises to "# increased pack size"; its tail can follow a number. */
  lemma PercentSeed(rest: string)
    requires rest == "% increased Pack Size"
    ensures NumberEnds(rest) && Normalize("#" + rest) == "# increased pack size"
  {
    PackSizeTexts();
    PackSizeKeyText();
    PercentSpelled(rest, Join(PackSizeWords, " "), Join(PackSizeKey, " "));
    PercentSentence();
  }

  lemma PercentSpelled(rest: string, w: string, k: string)
    requires rest == "% increased Pack Size" && w == "increased Pack Size" && k == "increased pack size"
    ensures NumberEnds(rest) && "#" + rest == "#%" + " " + w && "#" + " " + k == "# increased pack size"
  {
  }

  lemma TwelveSpelled(rest: string)
    requires rest == "% increased Pack Size"
    ensures DigitString("12") && "12% increased Pack Size" == "12" + rest
  {
  }

  lemma SevenSpelled(rest: string)
    requires rest == "% increased Pack Size"
    ensures DigitString("7") && "7% increased Pack Size" == "7" + rest
  {
  }

  /** "# increased Pack Size" normalises to "# increased pack size". */
  lemma HashSeed()
    ensures Normalize("# increased Pack Size") == "# increased pack size"
  {
    PackSizeTexts();
    PackSizeKeyText();
    HashSentence();
  }

  // ---------------------------------------------------------------------------
  // Groups
  // ---------------------------------------------------------------------------

  /**
   * A group, `[..]` or `{..}`, whose body has no closing character and no
   * line feed is replaced by its last `|` option, trimmed, between two spaces;
   * the scan goes on after it.
   */
  lemma GroupResolves(open: char, close: char, body: string, rest: string)
    requires close !in body && '\n' !in body
    ensures ResolveGroups([open] + body + [close] + rest, open, close)
      == " " + PickOption(body) + " " + ResolveGroups(rest, open, close)
  {
    var s := [open] + body + [close] + rest;
    var t := s[1..];
    assert t == body + [close] + rest;
    assert t[|body|] == close;
    assert forall k :: 0 <= k < |body| ==> t[k] == body[k];
    FindCloseSpec(t, close);
    assert FindClose(t, close) == Some(|body|);
    assert s[1..1 + |body|] == body;
    assert s[|body| + 2..] == rest;
  }

  /** "a|b|c" shows as its last option. */
  lemma LastOption()
    ensures PickOption("a|b|c") == "c"
  {
    assert Trim("a|b|c") == "a|b|c" by { TrimOfTrimmed("a|b|c"); }
    assert '|' in "a|b|c" by { assert "a|b|c"[1] == '|'; }
    SplitThree('a', 'b', 'c', '|');
    assert "a|b|c" == ['a', '|', 'b', '|', 'c'];
    assert Trim("c") == "c" by { TrimOfTrimmed("c"); }
  }

  /** The words after the group in the rarity texts, and their rewritten forms. */
  const RarityWords: seq<string> := ["increased", "Rarity"]
  const RarityKey: seq<string> := ["increased", "rarity"]

  lemma RarityWord()
    ensures WordsRewrite(["Rarity"], ["rarity"])
  {
    assert Fold("Rarity") == "rarity";
    PlainSegment(["Rarity"], ["rarity"]);
  }

  lemma CWord()
    ensures WordsRewrite(["c"], ["c"])
  {
    assert Fold("c") == "c";
    PlainSegment(["c"], ["c"]);
  }

  lemma RarityWordsRewrite()
    ensures WordsRewrite(RarityWords, RarityKey)
  {
    IncreasedWord();
    RarityWord();
    WordsRewriteAppend(["increased"], ["increased"], ["Rarity"], ["rarity"]);
    assert RarityWords == ["increased"] + ["Rarity"];
    assert RarityKey == ["increased"] + ["rarity"];
  }

  /** The words after the group rewrite, joined, to the key's words, joined. */
  lemma RarityRewrite()
    ensures Rewrite(Join(RarityWords, " ")) == Join(RarityKey, " ")
  {
    RarityWordsRewrite();
    RewriteWords(RarityWords, RarityKey);
  }

  lemma RarityKeyShape()
    ensures var j := Join(RarityKey, " ");
      |j| > 0 && !IsWhite(j[0]) && !IsWhite(j[|j| - 1]) && NoDoubleWhite(j)
  {
    RarityWordsRewrite();
    RewrittenShape(RarityWords, RarityKey);
  }

  /** The lazy group body ends at the first `]`, when no line feed comes before it. */
  lemma FindCloseBody(body: string, rest: string)
    requires ']' !in body && '\n' !in body
    ensures FindClose(body + "]" + rest, ']') == Some(|body|)
  {
    var t := body + "]" + rest;
    assert t[|body|] == ']';
    assert forall k :: 0 <= k < |body| ==> t[k] == body[k];
    FindCloseSpec(t, ']');
  }

  /** A group whose body has no `]` and no line feed, followed by a closed text, is closed. */
  lemma ClosedGroup(body: string, rest: string)
    requires ']' !in body && '\n' !in body && Closed(rest, '[', ']')
    ensures Closed("[" + body + "]" + rest, '[', ']')
  {
    var s := "[" + body + "]" + rest;
    assert s[1..] == body + "]" + rest;
    FindCloseBody(body, rest);
    assert s[|body| + 2..] == rest;
  }

  /** The group pass alone turns "[a|b|c]" into " c ". */
  /** A text that is one group resolves to its option between spaces. */
  lemma GroupAlone(open: char, close: char, body: string, s: string, option: string)
    requires close !in body && '\n' !in body && PickOption(body) == option
    requires s == [open] + body + [close]
    ensures ResolveGroups(s, open, close) == " " + option + " "
  {
    GroupResolves(open, close, body, "");
    assert s == [open] + body + [close] + "";
    assert ResolveGroups("", open, close) == "";
  }

  /** The sample group: its body has no `]` and no line feed, and shows as "c". */
  lemma SampleBody(body: string, s: string)
    requires body == "a|b|c" && s == "[" + body + "]"
    ensures ']' !in body && '\n' !in body
    ensures s == ['['] + body + [']']
    ensures PickOption(body) == "c"
  {
    LastOption();
  }

  lemma SampleGroupPass(body: string, s: string)
    requires body == "a|b|c" && s == "[" + body + "]"
    ensures ResolveGroups(s, '[', ']') == " c "
    ensures '{' !in ResolveGroups(s, '[', ']')
  {
    SampleBody(body, s);
    GroupAlone('[', ']', body, s, "c");
    NoBraceInOption(ResolveGroups(s, '[', ']'));
  }

  lemma NoBraceInOption(t: string)
    requires t == " c "
    ensures '{' !in t
  {
    assert t[0] != '{' && t[1] != '{' && t[2] != '{';
  }

  /** The passes after the bracket pass leave " c " alone. */
  lemma SpacedLetterPasses()
    ensures AliasPacks(StripChars(CollapseHashes(ReplaceNumbers(Fold(ResolveGroups(" c ", '{', '}')))))) == " c "
  {
    ClosedWithoutOpen(" c ", '{', '}');
    GroupsIdentity(" c ", '{', '}');
    assert Fold(" c ") == " c ";
    assert ReplaceNumbers(" c ") == " c ";
    assert CollapseHashes(" c ") == " c ";
    assert StripChars(" c ") == " c ";
    NoPacks(" c ");
  }

  lemma SampleUnify(body: string, s: string)
    requires body == "a|b|c" && s == "[" + body + "]"
    ensures UnifySpaces(s) == s
  {
    assert s == "[a|b|c]";
    forall i | 0 <= i < |s| ensures UnifyChar(s[i]) == s[i] {
      assert s[i] in "[a|b|c]";
    }
  }

  /** The group passes stay inside a text the unify pass leaves alone, whose brackets close and whose resolution has no brace. */
  lemma GroupsSafeOf(x: string)
    requires UnifySpaces(x) == x && Closed(x, '[', ']') && '{' !in ResolveGroups(x, '[', ']')
    ensures GroupsSafe(x)
  {
    ClosedWithoutOpen(ResolveGroups(x, '[', ']'), '{', '}');
  }

  lemma SampleClosed(body: string, s: string)
    requires body == "a|b|c" && s == "[" + body + "]"
    ensures Closed(s, '[', ']')
  {
    SampleBody(body, s);
    ClosedWithoutOpen("", '[', ']');
    ClosedGroup(body, "");
    assert s == "[" + body + "]" + "";
  }

  /** The group passes of "[a|b|c]" stay inside it. */
  lemma SampleGroupsSafe(body: string, s: string)
    requires body == "a|b|c" && s == "[" + body + "]"
    ensures GroupsSafe(s)
  {
    SampleUnify(body, s);
    SampleGroupPass(body, s);
    SampleClosed(body, s);
    GroupsSafeOf(s);
  }

  /** The passes before the collapse turn "[a|b|c]" into " c ". */
  lemma GroupRewrite(body: string, s: string)
    requires body == "a|b|c" && s == "[" + body + "]"
    ensures Rewrite(s) == " c "
  {
    SampleUnify(body, s);
    SampleGroupPass(body, s);
    SpacedLetterPasses();
    var b := ResolveGroups(UnifySpaces(s), '[', ']');
    assert b == " c ";
  }

  /** Moving a space across a concatenation. */
  lemma Shift(r: string)
    ensures " c " + " " + r == " c" + ("  " + r)
  {
  }

  /** Trimming one leading space off a text that is otherwise trimmed. */
  lemma TrimOneSpace(t: string)
    requires |t| > 0 && !IsWhite(t[0]) && !IsWhite(t[|t| - 1])
    ensures Trim(" " + t) == t
  {
    var s := " " + t;
    assert s[1..] == t;
    assert LeadingWhite(t) == 0;
    assert LeadingWhite(s) == 1;
    assert TrailingWhite(s) == 0 by { assert s[|s| - 1] == t[|t| - 1]; }
  }

  /** A text whose passes give " c", two spaces and a collapsed `j` normalises to "c", one space and `j`. */
  lemma NormalizeOfGroupGap(s: string, j: string)
    requires !IsBlank(s)
    requires Rewrite(s) == " c" + ("  " + j)
    requires |j| > 0 && !IsWhite(j[0]) && !IsWhite(j[|j| - 1]) && NoDoubleWhite(j)
    ensures Normalize(s) == "c" + " " + j
  {
    CollapseAfter(" c", j);
    SpaceC(j);
    TrimOneSpace("c" + " " + j);
  }

  /** Moving the leading space of " c" out of a concatenation. */
  lemma SpaceC(j: string)
    ensures " c" + " " + j == " " + ("c" + " " + j)
  {
  }

  /** A text rewriting to " c ", a space and a text rewriting to a collapsed `j`, normalise to "c", a space and `j`. */
  lemma GroupSentenceOf(x: string, w: string, j: string)
    requires |x| > 0 && !IsWhite(x[0]) && Rewrite(x) == " c " && GroupsSafe(x)
    requires Rewrite(w) == j
    requires |j| > 0 && !IsWhite(j[0]) && !IsWhite(j[|j| - 1]) && NoDoubleWhite(j)
    ensures Normalize(x + " " + w) == "c" + " " + j
  {
    var s := x + " " + w;
    RewriteSpace(x, w);
    Shift(j);
    assert !IsBlank(s) by { assert s[0] == x[0]; }
    NormalizeOfGroupGap(s, j);
  }

  /** "[a|b|c] increased Rarity": the group leaves its last option between spaces, which collapse. */
  lemma GroupSentence(body: string, x: string)
    requires body == "a|b|c" && x == "[" + body + "]"
    ensures Normalize(x + " " + Join(RarityWords, " ")) == "c" + " " + Join(RarityKey, " ")
  {
    GroupRewrite(body, x);
    SampleGroupsSafe(body, x);
    RarityRewrite();
    RarityKeyShape();
    GroupSentenceOf(x, Join(RarityWords, " "), Join(RarityKey, " "));
  }

  /** "[a|b|c] increased Rarity" shows as "c increased Rarity", and both normalise to "c increased rarity". */
  lemma RaritySeeds()
    ensures Normalize("[a|b|c] increased Rarity") == "c increased rarity"
    ensures Normalize("c increased Rarity") == "c increased rarity"
  {
    RarityTexts();
    GroupSentence("a|b|c", "[a|b|c]");
    CSentence();
  }

  /** "c increased Rarity", as words, normalises word by word. */
  lemma CSentence()
    ensures Normalize(Join(["c"] + RarityWords, " ")) == Join(["c"] + RarityKey, " ")
  {
    CWord();
    RarityWordsRewrite();
    WordsRewriteAppend(["c"], ["c"], RarityWords, RarityKey);
    NormalizeSentence(["c"] + RarityWords, ["c"] + RarityKey);
  }

  lemma RarityTexts()
    ensures "[a|b|c]" + " " + Join(RarityWords, " ") == "[a|b|c] increased Rarity"
    ensures Join(["c"] + RarityWords, " ") == "c increased Rarity"
    ensures "c" + " " + Join(RarityKey, " ") == "c increased rarity"
    ensures Join(["c"] + RarityKey, " ") == "c increased rarity"
  {
    JoinTwo("increased", "Rarity");
    JoinTwo("increased", "rarity");
    JoinFront("c", RarityWords);
    JoinFront("c", RarityKey);
  }

  lemma JoinTwo(a: string, b: string)
    ensures Join([a, b], " ") == a + " " + b
  {
    assert [a, b][1..] == [b];
  }

  lemma JoinFront(a: string, ws: seq<string>)
    requires |ws| > 0
    ensures Join([a] + ws, " ") == a + " " + Join(ws, " ")
  {
    assert ([a] + ws)[1..] == ws;
  }
}
