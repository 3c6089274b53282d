/**
 * Facts about the four built-in mapping entries: what their texts normalise
 * to, that those keys are already normal and distinct, and a lookup that hits
 * two of them at once.
 */
module BuiltInFacts {
  import opened Opt
  import opened Text
  import opened Canon
  import opened CanonFacts
  import opened Sentences
  import opened HiddenMapping

  /** The words of the normalised built-in texts. */
  const BuiltInKeyWords: seq<seq<string>> := [
    ["natural", "monster", "pack", "in", "area", "are", "in", "a", "union", "of", "souls"],
    ["natural", "rare", "monsters", "in", "area", "are", "in", "a", "union", "of", "souls", "with", "the", "map", "boss"],
    ["area", "has", "patches", "of", "mana", "siphoning", "ground"],
    ["players", "are", "marked", "for", "death", "for", "#", "seconds", "after", "killing", "a", "rare", "or", "unique", "monster"]
  ]

  lemma Text1WordsPart1()
    ensures WordsRewrite(["Natural", "Monster"], ["natural", "monster"])
  {
    assert Fold("Natural") == "natural";
    assert Fold("Monster") == "monster";
    PlainSegment(["Natural", "Monster"], ["natural", "monster"]);
  }

  lemma Text1WordsPart3()
    ensures WordsRewrite(["in", "Area", "are", "in"], ["in", "area", "are", "in"])
  {
    assert Fold("in") == "in";
    assert Fold("Area") == "area";
    assert Fold("are") == "are";
    assert Fold("in") == "in";
    PlainSegment(["in", "Area", "are", "in"], ["in", "area", "are", "in"]);
  }

  lemma Text1WordsPart4()
    ensures WordsRewrite(["a", "Union", "of", "Souls"], ["a", "union", "of", "souls"])
  {
    assert Fold("a") == "a";
    assert Fold("Union") == "union";
    assert Fold("of") == "of";
    assert Fold("Souls") == "souls";
    PlainSegment(["a", "Union", "of", "Souls"], ["a", "union", "of", "souls"]);
  }

  lemma Text1WordsJoined(a: seq<string>, va: seq<string>, b: seq<string>, vb: seq<string>, c: seq<string>, vc: seq<string>, d: seq<string>, vd: seq<string>)
    requires a == ["Natural", "Monster"] && va == ["natural", "monster"]
    requires b == ["Packs"] && vb == ["pack"]
    requires c == ["in", "Area", "are", "in"] && vc == ["in", "area", "are", "in"]
    requires d == ["a", "Union", "of", "Souls"] && vd == ["a", "union", "of", "souls"]
    ensures WordsRewrite(a + b + c + d, va + vb + vc + vd)
  {
    Text1WordsPart1();
    PacksWord();
    Text1WordsPart3();
    Text1WordsPart4();
    WordsRewriteAppend(a, va, b, vb);
    WordsRewriteAppend(a + b, va + vb, c, vc);
    WordsRewriteAppend(a + b + c, va + vb + vc, d, vd);
  }

  lemma Text1WordsSplit()
    ensures BuiltInWords[0] == ["Natural", "Monster"] + ["Packs"] + ["in", "Area", "are", "in"] + ["a", "Union", "of", "Souls"]
  {
  }

  lemma Text1WordsKeySplit()
    ensures BuiltInKeyWords[0] == ["natural", "monster"] + ["pack"] + ["in", "area", "are", "in"] + ["a", "union", "of", "souls"]
  {
  }

  /** The words of built-in text 1 rewrite one by one. */
  lemma Text1Words()
    ensures WordsRewrite(BuiltInWords[0], BuiltInKeyWords[0])
  {
    Text1WordsJoined(["Natural", "Monster"], ["natural", "monster"], ["Packs"], ["pack"], ["in", "Area", "are", "in"], ["in", "area", "are", "in"], ["a", "Union", "of", "Souls"], ["a", "union", "of", "souls"]);
    Text1WordsSplit();
    Text1WordsKeySplit();
  }

  lemma Key1WordsPart1()
    ensures WordsRewrite(["natural", "monster"], ["natural", "monster"])
  {
    assert Fold("natural") == "natural";
    assert Fold("monster") == "monster";
    PlainSegment(["natural", "monster"], ["natural", "monster"]);
  }

  lemma Key1WordsPart3()
    ensures WordsRewrite(["in", "area", "are", "in"], ["in", "area", "are", "in"])
  {
    assert Fold("in") == "in";
    assert Fold("area") == "area";
    assert Fold("are") == "are";
    assert Fold("in") == "in";
    PlainSegment(["in", "area", "are", "in"], ["in", "area", "are", "in"]);
  }

  lemma Key1WordsPart4()
    ensures WordsRewrite(["a", "union", "of", "souls"], ["a", "union", "of", "souls"])
  {
    assert Fold("a") == "a";
    assert Fold("union") == "union";
    assert Fold("of") == "of";
    assert Fold("souls") == "souls";
    PlainSegment(["a", "union", "of", "souls"], ["a", "union", "of", "souls"]);
  }

  lemma Key1WordsJoined(a: seq<string>, va: seq<string>, b: seq<string>, vb: seq<string>, c: seq<string>, vc: seq<string>, d: seq<string>, vd: seq<string>)
    requires a == ["natural", "monster"] && va == ["natural", "monster"]
    requires b == ["pack"] && vb == ["pack"]
    requires c == ["in", "area", "are", "in"] && vc == ["in", "area", "are", "in"]
    requires d == ["a", "union", "of", "souls"] && vd == ["a", "union", "of", "souls"]
    ensures WordsRewrite(a + b + c + d, va + vb + vc + vd)
  {
    Key1WordsPart1();
    PackWord();
    Key1WordsPart3();
    Key1WordsPart4();
    WordsRewriteAppend(a, va, b, vb);
    WordsRewriteAppend(a + b, va + vb, c, vc);
    WordsRewriteAppend(a + b + c, va + vb + vc, d, vd);
  }

  lemma Key1WordsSplit()
    ensures BuiltInKeyWords[0] == ["natural", "monster"] + ["pack"] + ["in", "area", "are", "in"] + ["a", "union", "of", "souls"]
  {
  }

  /** The words of built-in key 1 rewrite to themselves. */
  lemma Key1Words()
    ensures WordsRewrite(BuiltInKeyWords[0], BuiltInKeyWords[0])
  {
    Key1WordsJoined(["natural", "monster"], ["natural", "monster"], ["pack"], ["pack"], ["in", "area", "are", "in"], ["in", "area", "are", "in"], ["a", "union", "of", "souls"], ["a", "union", "of", "souls"]);
    Key1WordsSplit();
  }

  lemma Text2WordsPart1()
    ensures WordsRewrite(["Natural", "Rare", "Monsters", "in"], ["natural", "rare", "monsters", "in"])
  {
    assert Fold("Natural") == "natural";
    assert Fold("Rare") == "rare";
    assert Fold("Monsters") == "monsters";
    assert Fold("in") == "in";
    PlainSegment(["Natural", "Rare", "Monsters", "in"], ["natural", "rare", "monsters", "in"]);
  }

  lemma Text2WordsPart2()
    ensures WordsRewrite(["Area", "are", "in", "a"], ["area", "are", "in", "a"])
  {
    assert Fold("Area") == "area";
    assert Fold("are") == "are";
    assert Fold("in") == "in";
    assert Fold("a") == "a";
    PlainSegment(["Area", "are", "in", "a"], ["area", "are", "in", "a"]);
  }

  lemma Text2WordsPart3()
    ensures WordsRewrite(["Union", "of", "Souls", "with"], ["union", "of", "souls", "with"])
  {
    assert Fold("Union") == "union";
    assert Fold("of") == "of";
    assert Fold("Souls") == "souls";
    assert Fold("with") == "with";
    PlainSegment(["Union", "of", "Souls", "with"], ["union", "of", "souls", "with"]);
  }

  lemma Text2WordsPart4()
    ensures WordsRewrite(["the", "Map", "Boss"], ["the", "map", "boss"])
  {
    assert Fold("the") == "the";
    assert Fold("Map") == "map";
    assert Fold("Boss") == "boss";
    PlainSegment(["the", "Map", "Boss"], ["the", "map", "boss"]);
  }

  lemma Text2WordsJoined(a: seq<string>, va: seq<string>, b: seq<string>, vb: seq<string>, c: seq<string>, vc: seq<string>, d: seq<string>, vd: seq<string>)
    requires a == ["Natural", "Rare", "Monsters", "in"] && va == ["natural", "rare", "monsters", "in"]
    requires b == ["Area", "are", "in", "a"] && vb == ["area", "are", "in", "a"]
    requires c == ["Union", "of", "Souls", "with"] && vc == ["union", "of", "souls", "with"]
    requires d == ["the", "Map", "Boss"] && vd == ["the", "map", "boss"]
    ensures WordsRewrite(a + b + c + d, va + vb + vc + vd)
  {
    Text2WordsPart1();
    Text2WordsPart2();
    Text2WordsPart3();
    Text2WordsPart4();
    WordsRewriteAppend(a, va, b, vb);
    WordsRewriteAppend(a + b, va + vb, c, vc);
    WordsRewriteAppend(a + b + c, va + vb + vc, d, vd);
  }

  lemma Text2WordsSplit()
    ensures BuiltInWords[1] == ["Natural", "Rare", "Monsters", "in"] + ["Area", "are", "in", "a"] + ["Union", "of", "Souls", "with"] + ["the", "Map", "Boss"]
  {
  }

  lemma Text2WordsKeySplit()
    ensures BuiltInKeyWords[1] == ["natural", "rare", "monsters", "in"] + ["area", "are", "in", "a"] + ["union", "of", "souls", "with"] + ["the", "map", "boss"]
  {
  }

  /** The words of built-in text 2 rewrite one by one. */
  lemma Text2Words()
    ensures WordsRewrite(BuiltInWords[1], BuiltInKeyWords[1])
  {
    Text2WordsJoined(["Natural", "Rare", "Monsters", "in"], ["natural", "rare", "monsters", "in"], ["Area", "are", "in", "a"], ["area", "are", "in", "a"], ["Union", "of", "Souls", "with"], ["union", "of", "souls", "with"], ["the", "Map", "Boss"], ["the", "map", "boss"]);
    Text2WordsSplit();
    Text2WordsKeySplit();
  }

  lemma Key2WordsPart1()
    ensures WordsRewrite(["natural", "rare", "monsters", "in"], ["natural", "rare", "monsters", "in"])
  {
    assert Fold("natural") == "natural";
    assert Fold("rare") == "rare";
    assert Fold("monsters") == "monsters";
    assert Fold("in") == "in";
    PlainSegment(["natural", "rare", "monsters", "in"], ["natural", "rare", "monsters", "in"]);
  }

  lemma Key2WordsPart2()
    ensures WordsRewrite(["area", "are", "in", "a"], ["area", "are", "in", "a"])
  {
    assert Fold("area") == "area";
    assert Fold("are") == "are";
    assert Fold("in") == "in";
    assert Fold("a") == "a";
    PlainSegment(["area", "are", "in", "a"], ["area", "are", "in", "a"]);
  }

  lemma Key2WordsPart3()
    ensures WordsRewrite(["union", "of", "souls", "with"], ["union", "of", "souls", "with"])
  {
    assert Fold("union") == "union";
    assert Fold("of") == "of";
    assert Fold("souls") == "souls";
    assert Fold("with") == "with";
    PlainSegment(["union", "of", "souls", "with"], ["union", "of", "souls", "with"]);
  }

  lemma Key2WordsPart4()
    ensures WordsRewrite(["the", "map", "boss"], ["the", "map", "boss"])
  {
    assert Fold("the") == "the";
    assert Fold("map") == "map";
    assert Fold("boss") == "boss";
    PlainSegment(["the", "map", "boss"], ["the", "map", "boss"]);
  }

  lemma Key2WordsJoined(a: seq<string>, va: seq<string>, b: seq<string>, vb: seq<string>, c: seq<string>, vc: seq<string>, d: seq<string>, vd: seq<string>)
    requires a == ["natural", "rare", "monsters", "in"] && va == ["natural", "rare", "monsters", "in"]
    requires b == ["area", "are", "in", "a"] && vb == ["area", "are", "in", "a"]
    requires c == ["union", "of", "souls", "with"] && vc == ["union", "of", "souls", "with"]
    requires d == ["the", "map", "boss"] && vd == ["the", "map", "boss"]
    ensures WordsRewrite(a + b + c + d, va + vb + vc + vd)
  {
    Key2WordsPart1();
    Key2WordsPart2();
    Key2WordsPart3();
    Key2WordsPart4();
    WordsRewriteAppend(a, va, b, vb);
    WordsRewriteAppend(a + b, va + vb, c, vc);
    WordsRewriteAppend(a + b + c, va + vb + vc, d, vd);
  }

  lemma Key2WordsSplit()
    ensures BuiltInKeyWords[1] == ["natural", "rare", "monsters", "in"] + ["area", "are", "in", "a"] + ["union", "of", "souls", "with"] + ["the", "map", "boss"]
  {
  }

  /** The words of built-in key 2 rewrite to themselves. */
  lemma Key2Words()
    ensures WordsRewrite(BuiltInKeyWords[1], BuiltInKeyWords[1])
  {
    Key2WordsJoined(["natural", "rare", "monsters", "in"], ["natural", "rare", "monsters", "in"], ["area", "are", "in", "a"], ["area", "are", "in", "a"], ["union", "of", "souls", "with"], ["union", "of", "souls", "with"], ["the", "map", "boss"], ["the", "map", "boss"]);
    Key2WordsSplit();
  }

  lemma Text3WordsPart1()
    ensures WordsRewrite(["Area", "has", "patches", "of"], ["area", "has", "patches", "of"])
  {
    assert Fold("Area") == "area";
    assert Fold("has") == "has";
    assert Fold("patches") == "patches";
    assert Fold("of") == "of";
    PlainSegment(["Area", "has", "patches", "of"], ["area", "has", "patches", "of"]);
  }

  lemma Text3WordsPart2()
    ensures WordsRewrite(["Mana", "Siphoning", "Ground"], ["mana", "siphoning", "ground"])
  {
    assert Fold("Mana") == "mana";
    assert Fold("Siphoning") == "siphoning";
    assert Fold("Ground") == "ground";
    PlainSegment(["Mana", "Siphoning", "Ground"], ["mana", "siphoning", "ground"]);
  }

  lemma Text3WordsJoined(a: seq<string>, va: seq<string>, b: seq<string>, vb: seq<string>)
    requires a == ["Area", "has", "patches", "of"] && va == ["area", "has", "patches", "of"]
    requires b == ["Mana", "Siphoning", "Ground"] && vb == ["mana", "siphoning", "ground"]
    ensures WordsRewrite(a + b, va + vb)
  {
    Text3WordsPart1();
    Text3WordsPart2();
    WordsRewriteAppend(a, va, b, vb);
  }

  lemma Text3WordsSplit()
    ensures BuiltInWords[2] == ["Area", "has", "patches", "of"] + ["Mana", "Siphoning", "Ground"]
  {
  }

  lemma Text3WordsKeySplit()
    ensures BuiltInKeyWords[2] == ["area", "has", "patches", "of"] + ["mana", "siphoning", "ground"]
  {
  }

  /** The words of built-in text 3 rewrite one by one. */
  lemma Text3Words()
    ensures WordsRewrite(BuiltInWords[2], BuiltInKeyWords[2])
  {
    Text3WordsJoined(["Area", "has", "patches", "of"], ["area", "has", "patches", "of"], ["Mana", "Siphoning", "Ground"], ["mana", "siphoning", "ground"]);
    Text3WordsSplit();
    Text3WordsKeySplit();
  }

  lemma Key3WordsPart1()
    ensures WordsRewrite(["area", "has", "patches", "of"], ["area", "has", "patches", "of"])
  {
    assert Fold("area") == "area";
    assert Fold("has") == "has";
    assert Fold("patches") == "patches";
    assert Fold("of") == "of";
    PlainSegment(["area", "has", "patches", "of"], ["area", "has", "patches", "of"]);
  }

  lemma Key3WordsPart2()
    ensures WordsRewrite(["mana", "siphoning", "ground"], ["mana", "siphoning", "ground"])
  {
    assert Fold("mana") == "mana";
    assert Fold("siphoning") == "siphoning";
    assert Fold("ground") == "ground";
    PlainSegment(["mana", "siphoning", "ground"], ["mana", "siphoning", "ground"]);
  }

  lemma Key3WordsJoined(a: seq<string>, va: seq<string>, b: seq<string>, vb: seq<string>)
    requires a == ["area", "has", "patches", "of"] && va == ["area", "has", "patches", "of"]
    requires b == ["mana", "siphoning", "ground"] && vb == ["mana", "siphoning", "ground"]
    ensures WordsRewrite(a + b, va + vb)
  {
    Key3WordsPart1();
    Key3WordsPart2();
    WordsRewriteAppend(a, va, b, vb);
  }

  lemma Key3WordsSplit()
    ensures BuiltInKeyWords[2] == ["area", "has", "patches", "of"] + ["mana", "siphoning", "ground"]
  {
  }

  /** The words of built-in key 3 rewrite to themselves. */
  lemma Key3Words()
    ensures WordsRewrite(BuiltInKeyWords[2], BuiltInKeyWords[2])
  {
    Key3WordsJoined(["area", "has", "patches", "of"], ["area", "has", "patches", "of"], ["mana", "siphoning", "ground"], ["mana", "siphoning", "ground"]);
    Key3WordsSplit();
  }

  lemma Text4WordsPart1()
    ensures WordsRewrite(["Players", "are", "Marked", "for"], ["players", "are", "marked", "for"])
  {
    assert Fold("Players") == "players";
    assert Fold("are") == "are";
    assert Fold("Marked") == "marked";
    assert Fold("for") == "for";
    PlainSegment(["Players", "are", "Marked", "for"], ["players", "are", "marked", "for"]);
  }

  lemma Text4WordsPart2()
    ensures WordsRewrite(["Death", "for"], ["death", "for"])
  {
    assert Fold("Death") == "death";
    assert Fold("for") == "for";
    PlainSegment(["Death", "for"], ["death", "for"]);
  }

  lemma Text4WordsPart4()
    ensures WordsRewrite(["seconds", "after", "killing", "a"], ["seconds", "after", "killing", "a"])
  {
    assert Fold("seconds") == "seconds";
    assert Fold("after") == "after";
    assert Fold("killing") == "killing";
    assert Fold("a") == "a";
    PlainSegment(["seconds", "after", "killing", "a"], ["seconds", "after", "killing", "a"]);
  }

  lemma Text4WordsPart5()
    ensures WordsRewrite(["Rare", "or", "Unique", "monster"], ["rare", "or", "unique", "monster"])
  {
    assert Fold("Rare") == "rare";
    assert Fold("or") == "or";
    assert Fold("Unique") == "unique";
    assert Fold("monster") == "monster";
    PlainSegment(["Rare", "or", "Unique", "monster"], ["rare", "or", "unique", "monster"]);
  }

  lemma Text4WordsJoined(a: seq<string>, va: seq<string>, b: seq<string>, vb: seq<string>, c: seq<string>, vc: seq<string>, d: seq<string>, vd: seq<string>, e: seq<string>, ve: seq<string>)
    requires a == ["Players", "are", "Marked", "for"] && va == ["players", "are", "marked", "for"]
    requires b == ["Death", "for"] && vb == ["death", "for"]
    requires c == ["10"] && vc == ["#"]
    requires d == ["seconds", "after", "killing", "a"] && vd == ["seconds", "after", "killing", "a"]
    requires e == ["Rare", "or", "Unique", "monster"] && ve == ["rare", "or", "unique", "monster"]
    ensures WordsRewrite(a + b + c + d + e, va + vb + vc + vd + ve)
  {
    Text4WordsPart1();
    Text4WordsPart2();
    NumberWord();
    Text4WordsPart4();
    Text4WordsPart5();
    WordsRewriteAppend(a, va, b, vb);
    WordsRewriteAppend(a + b, va + vb, c, vc);
    WordsRewriteAppend(a + b + c, va + vb + vc, d, vd);
    WordsRewriteAppend(a + b + c + d, va + vb + vc + vd, e, ve);
  }

  lemma Text4WordsSplit()
    ensures BuiltInWords[3] == ["Players", "are", "Marked", "for"] + ["Death", "for"] + ["10"] + ["seconds", "after", "killing", "a"] + ["Rare", "or", "Unique", "monster"]
  {
  }

  lemma Text4WordsKeySplit()
    ensures BuiltInKeyWords[3] == ["players", "are", "marked", "for"] + ["death", "for"] + ["#"] + ["seconds", "after", "killing", "a"] + ["rare", "or", "unique", "monster"]
  {
  }

  /** The words of built-in text 4 rewrite one by one. */
  lemma Text4Words()
    ensures WordsRewrite(BuiltInWords[3], BuiltInKeyWords[3])
  {
    Text4WordsJoined(["Players", "are", "Marked", "for"], ["players", "are", "marked", "for"], ["Death", "for"], ["death", "for"], ["10"], ["#"], ["seconds", "after", "killing", "a"], ["seconds", "after", "killing", "a"], ["Rare", "or", "Unique", "monster"], ["rare", "or", "unique", "monster"]);
    Text4WordsSplit();
    Text4WordsKeySplit();
  }

  lemma Key4WordsPart1()
    ensures WordsRewrite(["players", "are", "marked", "for"], ["players", "are", "marked", "for"])
  {
    assert Fold("players") == "players";
    assert Fold("are") == "are";
    assert Fold("marked") == "marked";
    assert Fold("for") == "for";
    PlainSegment(["players", "are", "marked", "for"], ["players", "are", "marked", "for"]);
  }

  lemma Key4WordsPart2()
    ensures WordsRewrite(["death", "for"], ["death", "for"])
  {
    assert Fold("death") == "death";
    assert Fold("for") == "for";
    PlainSegment(["death", "for"], ["death", "for"]);
  }

  lemma Key4WordsPart4()
    ensures WordsRewrite(["seconds", "after", "killing", "a"], ["seconds", "after", "killing", "a"])
  {
    assert Fold("seconds") == "seconds";
    assert Fold("after") == "after";
    assert Fold("killing") == "killing";
    assert Fold("a") == "a";
    PlainSegment(["seconds", "after", "killing", "a"], ["seconds", "after", "killing", "a"]);
  }

  lemma Key4WordsPart5()
    ensures WordsRewrite(["rare", "or", "unique", "monster"], ["rare", "or", "unique", "monster"])
  {
    assert Fold("rare") == "rare";
    assert Fold("or") == "or";
    assert Fold("unique") == "unique";
    assert Fold("monster") == "monster";
    PlainSegment(["rare", "or", "unique", "monster"], ["rare", "or", "unique", "monster"]);
  }

  lemma Key4WordsJoined(a: seq<string>, va: seq<string>, b: seq<string>, vb: seq<string>, c: seq<string>, vc: seq<string>, d: seq<string>, vd: seq<string>, e: seq<string>, ve: seq<string>)
    requires a == ["players", "are", "marked", "for"] && va == ["players", "are", "marked", "for"]
    requires b == ["death", "for"] && vb == ["death", "for"]
    requires c == ["#"] && vc == ["#"]
    requires d == ["seconds", "after", "killing", "a"] && vd == ["seconds", "after", "killing", "a"]
    requires e == ["rare", "or", "unique", "monster"] && ve == ["rare", "or", "unique", "monster"]
    ensures WordsRewrite(a + b + c + d + e, va + vb + vc + vd + ve)
  {
    Key4WordsPart1();
    Key4WordsPart2();
    NumberWord();
    Key4WordsPart4();
    Key4WordsPart5();
    WordsRewriteAppend(a, va, b, vb);
    WordsRewriteAppend(a + b, va + vb, c, vc);
    WordsRewriteAppend(a + b + c, va + vb + vc, d, vd);
    WordsRewriteAppend(a + b + c + d, va + vb + vc + vd, e, ve);
  }

  lemma Key4WordsSplit()
    ensures BuiltInKeyWords[3] == ["players", "are", "marked", "for"] + ["death", "for"] + ["#"] + ["seconds", "after", "killing", "a"] + ["rare", "or", "unique", "monster"]
  {
  }

  /** The words of built-in key 4 rewrite to themselves. */
  lemma Key4Words()
    ensures WordsRewrite(BuiltInKeyWords[3], BuiltInKeyWords[3])
  {
    Key4WordsJoined(["players", "are", "marked", "for"], ["players", "are", "marked", "for"], ["death", "for"], ["death", "for"], ["#"], ["#"], ["seconds", "after", "killing", "a"], ["seconds", "after", "killing", "a"], ["rare", "or", "unique", "monster"], ["rare", "or", "unique", "monster"]);
    Key4WordsSplit();
  }

  /** Built-in text 1 normalises to its key. */
  lemma BuiltInKey1()
    ensures Normalize(Join(BuiltInWords[0], " ")) == Join(BuiltInKeyWords[0], " ")
  {
    Text1Words();
    NormalizeSentence(BuiltInWords[0], BuiltInKeyWords[0]);
  }

  /** Built-in key 1 is already normal. */
  lemma BuiltInStable1()
    ensures Normalize(Join(BuiltInKeyWords[0], " ")) == Join(BuiltInKeyWords[0], " ")
  {
    Key1Words();
    NormalizeSentence(BuiltInKeyWords[0], BuiltInKeyWords[0]);
  }

  /** Built-in text 2 normalises to its key. */
  lemma BuiltInKey2()
    ensures Normalize(Join(BuiltInWords[1], " ")) == Join(BuiltInKeyWords[1], " ")
  {
    Text2Words();
    NormalizeSentence(BuiltInWords[1], BuiltInKeyWords[1]);
  }

  /** Built-in key 2 is already normal. */
  lemma BuiltInStable2()
    ensures Normalize(Join(BuiltInKeyWords[1], " ")) == Join(BuiltInKeyWords[1], " ")
  {
    Key2Words();
    NormalizeSentence(BuiltInKeyWords[1], BuiltInKeyWords[1]);
  }

  /** Built-in text 3 normalises to its key. */
  lemma BuiltInKey3()
    ensures Normalize(Join(BuiltInWords[2], " ")) == Join(BuiltInKeyWords[2], " ")
  {
    Text3Words();
    NormalizeSentence(BuiltInWords[2], BuiltInKeyWords[2]);
  }

  /** Built-in key 3 is already normal. */
  lemma BuiltInStable3()
    ensures Normalize(Join(BuiltInKeyWords[2], " ")) == Join(BuiltInKeyWords[2], " ")
  {
    Key3Words();
    NormalizeSentence(BuiltInKeyWords[2], BuiltInKeyWords[2]);
  }

  /** Built-in text 4 normalises to its key. */
  lemma BuiltInKey4()
    ensures Normalize(Join(BuiltInWords[3], " ")) == Join(BuiltInKeyWords[3], " ")
  {
    Text4Words();
    NormalizeSentence(BuiltInWords[3], BuiltInKeyWords[3]);
  }

  /** Built-in key 4 is already normal. */
  lemma BuiltInStable4()
    ensures Normalize(Join(BuiltInKeyWords[3], " ")) == Join(BuiltInKeyWords[3], " ")
  {
    Key4Words();
    NormalizeSentence(BuiltInKeyWords[3], BuiltInKeyWords[3]);
  }
}
