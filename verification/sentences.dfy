/**
 * Normalising texts written as words joined by single spaces, one word at a
 * time. The built-in mapping texts are long; stating them as word lists lets
 * the per-word facts be proved separately and combined by `NormalizeSentence`.
 */
module Sentences {
  import opened Text
  import opened Canon
  import opened CanonFacts

  /** A word of ASCII letters that, lower-cased, holds no "packs". */
  predicate PlainWord(w: string) {
    |w| > 0 && (forall i :: 0 <= i < |w| ==> ('a' <= w[i] <= 'z') || ('A' <= w[i] <= 'Z'))
    && ('k' !in Fold(w) || 'p' !in Fold(w))
  }

  /** Every word lower-cased. */
  function FoldAll(ws: seq<string>): (vs: seq<string>)
    ensures |vs| == |ws|
    ensures forall i :: 0 <= i < |ws| ==> vs[i] == Fold(ws[i])
    decreases |ws|
  {
    if |ws| == 0 then [] else [Fold(ws[0])] + FoldAll(ws[1..])
  }

  /** Plain words rewrite to their lower-case forms. */
  lemma PlainWordsRewrite(ws: seq<string>)
    requires forall i :: 0 <= i < |ws| ==> PlainWord(ws[i])
    ensures WordsRewrite(ws, FoldAll(ws))
  {
    forall i | 0 <= i < |ws| ensures RewritesTo(ws[i], FoldAll(ws)[i]) {
      Letters(ws[i], Fold(ws[i]));
    }
  }

  /** Word-by-word rewriting composes over concatenation. */
  lemma WordsRewriteAppend(ws: seq<string>, vs: seq<string>, ws': seq<string>, vs': seq<string>)
    requires WordsRewrite(ws, vs) && WordsRewrite(ws', vs')
    ensures WordsRewrite(ws + ws', vs + vs')
  {
    PairwiseAppend((w, v) => RewritesTo(w, v), ws, vs, ws', vs');
  }

  /** A relation that holds index by index on two pairs of sequences holds index by index on their concatenations. */
  lemma PairwiseAppend<T>(p: (T, T) -> bool, a: seq<T>, va: seq<T>, b: seq<T>, vb: seq<T>)
    requires |a| == |va| && |b| == |vb|
    requires forall i :: 0 <= i < |a| ==> p(a[i], va[i])
    requires forall i :: 0 <= i < |b| ==> p(b[i], vb[i])
    ensures forall i :: 0 <= i < |a + b| ==> p((a + b)[i], (va + vb)[i])
  {
    forall i | 0 <= i < |a + b| ensures p((a + b)[i], (va + vb)[i]) {
      if i >= |a| {
        assert p(b[i - |a|], vb[i - |a|]);
      }
    }
  }

  /** Three runs of words, each rewriting word by word, rewrite as one run. */
  lemma WordsRewrite3(a: seq<string>, va: seq<string>, b: seq<string>, vb: seq<string>, c: seq<string>, vc: seq<string>)
    requires WordsRewrite(a, va) && WordsRewrite(b, vb) && WordsRewrite(c, vc)
    ensures WordsRewrite(a + b + c, va + vb + vc)
  {
    WordsRewriteAppend(a, va, b, vb);
    WordsRewriteAppend(a + b, va + vb, c, vc);
  }

  /** "Packs" becomes "pack" through the alias. */
  lemma PacksWord()
    ensures WordsRewrite(["Packs"], ["pack"])
  {
    PacksWordOf("Packs", "pack");
  }

  lemma PacksWordOf(w: string, v: string)
    requires w == "Packs" && v == "pack"
    ensures WordsRewrite([w], [v])
  {
    PacksFold(w);
    PacksAlias(Fold(w));
    LettersWord(w, v);
  }

  /** "pack" is left as it is. */
  lemma PackWord()
    ensures WordsRewrite(["pack"], ["pack"])
  {
    PackWordOf("pack");
  }

  lemma PackWordOf(w: string)
    requires w == "pack"
    ensures WordsRewrite([w], [w])
  {
    PackFold(w);
    PackAlias(w);
    LettersWord(w, w);
  }

  lemma PacksFold(w: string)
    requires w == "Packs"
    ensures Fold(w) == "packs"
  {
  }

  lemma PacksAlias(w: string)
    requires w == "packs"
    ensures AliasPacks(w) == "pack"
  {
  }

  lemma PackFold(w: string)
    requires w == "pack"
    ensures Fold(w) == w
  {
  }

  lemma PackAlias(w: string)
    requires w == "pack"
    ensures AliasPacks(w) == w
  {
    assert AliasPacks(w[3..]) == "k";
    assert AliasPacks(w[2..]) == "ck";
    assert AliasPacks(w[1..]) == "ack";
  }

  /** A word of ASCII letters is a one-word run rewriting to its lower-case form after the alias. */
  lemma LettersWord(w: string, v: string)
    requires |w| > 0 && forall i :: 0 <= i < |w| ==> ('a' <= w[i] <= 'z') || ('A' <= w[i] <= 'Z')
    requires AliasPacks(Fold(w)) == v
    ensures WordsRewrite([w], [v])
  {
    LettersAlias(w, v);
    SingleWord(w, v);
  }

  /** One word rewriting to another is a one-word run. */
  lemma SingleWord(w: string, v: string)
    requires RewritesTo(w, v)
    ensures WordsRewrite([w], [v])
  {
  }

  /** A number becomes '#', and '#' stays. */
  lemma NumberWord()
    ensures WordsRewrite(["10"], ["#"])
    ensures WordsRewrite(["#"], ["#"])
  {
    NumberRewrite("10");
    HashWordRewrite();
    SingleWord("10", "#");
    SingleWord("#", "#");
  }

  lemma NumberRewrite(w: string)
    requires w == "10"
    ensures RewritesTo(w, "#")
  {
    assert Word(w);
    RewriteOfWord(w);
    NumberPasses(w);
  }

  lemma NumberPasses(w: string)
    requires w == "10"
    ensures AliasPacks(StripChars(CollapseHashes(ReplaceNumbers(Fold(w))))) == "#"
  {
    assert Fold(w) == w;
    assert ReplaceNumbers(w) == "#";
    HashPasses("#");
  }

  lemma HashPasses(w: string)
    requires w == "#"
    ensures AliasPacks(StripChars(CollapseHashes(w))) == w
  {
    assert CollapseHashes(w) == w;
    assert StripChars(w) == w;
    NoPacks(w);
  }

  lemma HashWordRewrite()
    ensures RewritesTo("#", "#")
  {
    var w := "#";
    assert Word(w);
    RewriteOfWord(w);
    assert Fold(w) == w;
    assert ReplaceNumbers(w) == w;
    HashPasses(w);
  }

  /** Plain words and their lower-case forms, given word by word. */
  lemma PlainSegment(ws: seq<string>, vs: seq<string>)
    requires |ws| == |vs|
    requires forall i :: 0 <= i < |ws| ==> PlainWord(ws[i]) && Fold(ws[i]) == vs[i]
    ensures WordsRewrite(ws, vs)
  {
    PlainWordsRewrite(ws);
    assert FoldAll(ws) == vs;
  }
}
