/**
 * `HiddenMappingLoader.ImportFromBuffer`: turns `match => hidden;hidden`
 * lines into the user mapping file and reloads the table.
 */
module MappingImport {
  import opened Opt
  import opened Text
  import opened Canon
  import opened HiddenMapping
  import opened MappingLoader

  /** `.Select(x => x.Trim())`. */
  function TrimAll(xs: seq<string>): (r: seq<string>)
    ensures |r| == |xs| && forall i :: 0 <= i < |xs| ==> r[i] == Trim(xs[i])
    decreases |xs|
  {
    if |xs| == 0 then [] else [Trim(xs[0])] + TrimAll(xs[1..])
  }

  /** Pieces trimmed, empty and blank ones dropped, first occurrences up to case. */
  function CleanPieces(xs: seq<string>): seq<string> {
    DistinctIgnoreCase(NonBlank(TrimAll(NonEmpty(xs))))
  }

  /** The hidden list of an imported line: its `;`-separated pieces, cleaned. */
  function ImportHidden(piece: string): seq<string> {
    CleanPieces(SplitChars(piece, {';'}))
  }

  /** The pieces of a line around `=>`, empty ones dropped. */
  function LineParts(line: string): seq<string> {
    NonEmpty(SplitOn(line, "=>"))
  }

  /**
   * One line of an import buffer, `match => hidden;hidden;...`: the text
   * before the first `=>` and the one after it, with empty pieces dropped
   * first; anything after a second `=>` is ignored. `None` when the line is
   * skipped.
   */
  function ImportLine(line: string): Option<Entry> {
    var parts := LineParts(line);
    if |parts| < 2 then None
    else
      var m := Trim(parts[0]);
      var hidden := ImportHidden(parts[1]);
      if !IsBlank(m) && |hidden| > 0 then Some(Entry(Some(Normalize(m)), Some(hidden))) else None
  }

  /** The entries of the lines that are not skipped, in order. */
  function ImportLines(lines: seq<string>): (r: Mappings)
    ensures |r| <= |lines|
  {
    if |lines| == 0 then []
    else (if ImportLine(lines[0]).Some? then [ImportLine(lines[0])] else []) + ImportLines(lines[1..])
  }

  /** The lines of a buffer: split on CR and LF, empty lines dropped; a null buffer has none. */
  function BufferLines(buffer: Option<string>): seq<string> {
    NonEmpty(SplitChars(if buffer.Some? then buffer.value else "", {'\r', '\n'}))
  }

  /** The document `ImportFromBuffer` writes to the user file. */
  function ImportFromBuffer(buffer: Option<string>): HiddenMap {
    HiddenMap(2, Some(ImportLines(BufferLines(buffer))))
  }

  /**
   * `ImportFromBuffer(buffer)`: when the user file is written (`written`),
   * the table is reloaded with that document as the user file; when the
   * write throws, nothing changes. `thrown` is passed on to the reload.
   */
  function ImportAndReload(l: Loader, buffer: Option<string>, seeds: FileRead, written: bool, thrown: bool): Loader {
    if !written then l
    else LoadMappings(l, seeds, Parsed(Some(ImportFromBuffer(buffer))), thrown)
  }

  /** Every cleaned piece is a trimmed, non-blank piece of the input. */
  lemma CleanPiecesSourced(xs: seq<string>, h: string)
    requires h in CleanPieces(xs)
    ensures !IsBlank(h) && Trimmed(h) && exists x :: x in xs && h == Trim(x)
  {
    var ne := NonEmpty(xs);
    var t := TrimAll(ne);
    CleanedFrom(t, h);
    TrimAllSource(xs, ne, t, h);
  }

  /** A trimmed non-empty piece is the trim of a piece of the input. */
  lemma TrimAllSource(xs: seq<string>, ne: seq<string>, t: seq<string>, h: string)
    requires ne == NonEmpty(xs) && t == TrimAll(ne) && h in t
    ensures Trimmed(h) && exists x :: x in xs && h == Trim(x)
  {
    var i :| 0 <= i < |t| && t[i] == h;
    assert ne[i] in ne;
  }

  /** A string the cleaning keeps is one of the trimmed pieces, and not blank. */
  lemma CleanedFrom(t: seq<string>, h: string)
    requires h in DistinctIgnoreCase(NonBlank(t))
    ensures h in t && !IsBlank(h)
  {
    DistinctIgnoreCaseSpec(NonBlank(t));
  }

  /** Every non-blank piece is kept, trimmed, up to case. */
  lemma CleanPiecesCovers(xs: seq<string>, x: string)
    requires x in xs && !IsBlank(x)
    ensures ContainsIgnoreCase(CleanPieces(xs), Trim(x))
  {
    var ne := NonEmpty(xs);
    var t := TrimAll(ne);
    assert x in ne;
    var i :| 0 <= i < |ne| && ne[i] == x;
    assert t[i] == Trim(x);
    TrimBlank(x);
    assert Trim(x) in NonBlank(t);
    DistinctIgnoreCaseSpec(NonBlank(t));
  }

  /**
   * An imported hidden list is distinct up to case; its strings are trimmed,
   * not blank, and free of `;`; and it holds every non-blank piece, trimmed.
   */
  lemma ImportHiddenSpec(piece: string)
    ensures NoDupIgnoreCase(ImportHidden(piece))
    ensures forall h :: h in ImportHidden(piece) ==> !IsBlank(h) && Trimmed(h) && ';' !in h
    ensures forall p :: p in SplitChars(piece, {';'}) && !IsBlank(p) ==> ContainsIgnoreCase(ImportHidden(piece), Trim(p))
  {
    var pieces := SplitChars(piece, {';'});
    DistinctIgnoreCaseSpec(NonBlank(TrimAll(NonEmpty(pieces))));
    forall h | h in ImportHidden(piece) ensures !IsBlank(h) && Trimmed(h) && ';' !in h {
      CleanPiecesSourced(pieces, h);
      var x :| x in pieces && h == Trim(x);
      NoSemicolon(pieces, x);
      TrimChars(x);
    }
    forall p | p in pieces && !IsBlank(p) ensures ContainsIgnoreCase(ImportHidden(piece), Trim(p)) {
      CleanPiecesCovers(pieces, p);
    }
  }

  lemma NoSemicolon(pieces: seq<string>, x: string)
    requires x in pieces
    requires forall i, j :: 0 <= i < |pieces| && 0 <= j < |pieces[i]| ==> pieces[i][j] !in {';'}
    ensures ';' !in x
  {
  }

  /** Trimming keeps a string blank or not blank. */
  lemma TrimBlank(s: string)
    ensures IsBlank(Trim(s)) <==> IsBlank(s)
  {
  }

  /**
   * A line is imported exactly when it has two non-empty pieces around `=>`,
   * the first not blank and the second holding a non-blank `;`-piece.
   */
  lemma ImportLineSpec(line: string)
    ensures ImportLine(line).Some? <==>
      |LineParts(line)| >= 2 && !IsBlank(LineParts(line)[0]) &&
      HasNonBlank(SplitChars(LineParts(line)[1], {';'}))
  {
    ImportLineWhen(line);
    if |LineParts(line)| >= 2 {
      CleanPiecesNonEmpty(SplitChars(LineParts(line)[1], {';'}));
    }
  }

  lemma ImportLineWhen(line: string)
    ensures ImportLine(line).Some? <==>
      |LineParts(line)| >= 2 && !IsBlank(LineParts(line)[0]) && |ImportHidden(LineParts(line)[1])| > 0
  {
    var parts := LineParts(line);
    if |parts| >= 2 {
      TrimBlank(parts[0]);
    }
  }

  /** An imported entry has a `Match` and a hidden list that is not empty, distinct up to case, and free of blanks. */
  predicate WellFormed(e: Option<Entry>) {
    && e.Some? && e.value.text.Some? && e.value.hidden.Some? && |e.value.hidden.value| > 0
    && NoDupIgnoreCase(e.value.hidden.value)
    && (forall h :: h in e.value.hidden.value ==> !IsBlank(h))
  }

  lemma ImportLineShape(line: string)
    ensures ImportLine(line).Some? ==> WellFormed(ImportLine(line))
  {
    if ImportLine(line).Some? {
      ImportHiddenSpec(LineParts(line)[1]);
    }
  }

  /** Some piece is not blank. */
  predicate HasNonBlank(xs: seq<string>) {
    exists x :: x in xs && !IsBlank(x)
  }

  /** Cleaning leaves something exactly when some piece is not blank. */
  lemma CleanPiecesNonEmpty(xs: seq<string>)
    ensures |CleanPieces(xs)| > 0 <==> HasNonBlank(xs)
  {
    if |CleanPieces(xs)| > 0 {
      CleanPiecesSourced(xs, CleanPieces(xs)[0]);
      var x :| x in xs && CleanPieces(xs)[0] == Trim(x);
      TrimBlank(x);
    }
    if HasNonBlank(xs) {
      var x :| x in xs && !IsBlank(x);
      CleanPiecesCovers(xs, x);
    }
  }

  /** Every imported entry is well formed. */
  lemma {:induction false} ImportLinesShape(lines: seq<string>)
    ensures forall e :: e in ImportLines(lines) ==> WellFormed(e)
  {
    if |lines| > 0 {
      ImportLinesShape(lines[1..]);
      ImportLineShape(lines[0]);
      forall e | e in ImportLines(lines) ensures WellFormed(e) {
        ImportLinesMember(lines, e);
      }
    }
  }

  /** An imported entry comes from the first line or from the rest. */
  lemma ImportLinesMember(lines: seq<string>, e: Option<Entry>)
    requires |lines| > 0 && e in ImportLines(lines)
    ensures (ImportLine(lines[0]).Some? && e == ImportLine(lines[0])) || e in ImportLines(lines[1..])
  {
    var head := if ImportLine(lines[0]).Some? then [ImportLine(lines[0])] else [];
    assert ImportLines(lines) == head + ImportLines(lines[1..]);
  }

  // ---------------------------------------------------------------------------
  // Round trip
  // ---------------------------------------------------------------------------

  /** A row of an import buffer: the visible text and the hidden strings written after `=>`. */
  datatype Row = Row(text: string, hidden: seq<string>)

  /** The line `text=>h1;h2;...`. */
  function RowLine(r: Row): string {
    r.text + "=>" + Join(r.hidden, ";")
  }

  function RowLines(rows: seq<Row>): (r: seq<string>)
    ensures |r| == |rows| && forall i :: 0 <= i < |rows| ==> r[i] == RowLine(rows[i])
    decreases |rows|
  {
    if |rows| == 0 then [] else [RowLine(rows[0])] + RowLines(rows[1..])
  }

  /** The rows written one per line. */
  function RowsBuffer(rows: seq<Row>): string {
    Join(RowLines(rows), "\n")
  }

  /** The entry a row is expected to import as. */
  function RowEntry(r: Row): Option<Entry> {
    Some(Entry(Some(Normalize(Trim(r.text))), Some(r.hidden)))
  }

  function RowEntries(rows: seq<Row>): (r: Mappings)
    ensures |r| == |rows| && forall i :: 0 <= i < |rows| ==> r[i] == RowEntry(rows[i])
    decreases |rows|
  {
    if |rows| == 0 then [] else [RowEntry(rows[0])] + RowEntries(rows[1..])
  }

  /** A hidden string that survives the import unchanged: trimmed, not empty, no separator or line break. */
  predicate PlainHidden(x: string) {
    |x| > 0 && Trimmed(x) && ';' !in x && '>' !in x && '\r' !in x && '\n' !in x
  }

  /** A row the import reads back as written. */
  predicate GoodRow(r: Row) {
    && !IsBlank(r.text) && '>' !in r.text && '\r' !in r.text && '\n' !in r.text
    && |r.hidden| > 0 && (forall i :: 0 <= i < |r.hidden| ==> PlainHidden(r.hidden[i]))
    && NoDupIgnoreCase(r.hidden)
  }

  lemma {:induction false} NonEmptyOfNonEmpty(xs: seq<string>)
    requires forall i :: 0 <= i < |xs| ==> |xs[i]| > 0
    ensures NonEmpty(xs) == xs
  {
    if |xs| > 0 {
      NonEmptyOfNonEmpty(xs[1..]);
    }
  }

  /** Clean pieces come through cleaning unchanged. */
  lemma CleanPiecesOfPlain(xs: seq<string>)
    requires forall i :: 0 <= i < |xs| ==> PlainHidden(xs[i])
    requires NoDupIgnoreCase(xs)
    ensures CleanPieces(xs) == xs
  {
    NonEmptyOfNonEmpty(xs);
    forall i | 0 <= i < |xs| ensures Trim(xs[i]) == xs[i] && !IsBlank(xs[i]) {
      TrimOfTrimmed(xs[i]);
    }
    assert TrimAll(xs) == xs;
    NonBlankOfNonBlank(xs);
    DistinctOfDistinct(xs);
  }

  /** Hidden strings joined with `;` are imported as themselves. */
  lemma ImportHiddenOfJoin(hs: seq<string>)
    requires |hs| > 0 && (forall i :: 0 <= i < |hs| ==> PlainHidden(hs[i])) && NoDupIgnoreCase(hs)
    ensures ImportHidden(Join(hs, ";")) == hs
  {
    forall i | 0 <= i < |hs| ensures NoSep(hs[i], {';'}) {
      assert ';' !in hs[i];
    }
    SplitJoinChar(hs, ';', {';'});
    CleanPiecesOfPlain(hs);
  }

  /** With no `>` in `a`, the first `=>` of `a + "=>" + b` is the one after `a`. */
  lemma NoArrowBefore(a: string, b: string)
    requires '>' !in a
    ensures NoSepBefore(a + "=>" + b, "=>", |a|)
  {
    var s := a + "=>" + b;
    forall k | 0 <= k < |a| && k <= |s| ensures !StartsWith(s[k..], "=>") {
      if k + 1 < |a| {
        assert s[k + 1] == a[k + 1];
      } else {
        assert s[k + 1] == '=';
      }
      assert s[k..][1] == s[k + 1];
    }
  }

  /** Without `>`, a string holds no `=>`. */
  lemma NoArrow(s: string)
    requires '>' !in s
    ensures NoSepBefore(s, "=>", |s|)
  {
    forall k | 0 <= k < |s| && k <= |s| ensures !StartsWith(s[k..], "=>") {
      if k + 1 < |s| {
        assert s[k..][1] == s[k + 1];
      }
    }
  }

  /** A line with one `=>` between two pieces without `>` splits into those pieces. */
  lemma LinePartsOfTwo(t: string, j: string)
    requires '>' !in t && '>' !in j && |t| > 0 && |j| > 0
    ensures LineParts(t + "=>" + j) == [t, j]
  {
    NoArrowBefore(t, j);
    SplitOnFirst(t, "=>", j);
    NoArrow(j);
    SplitOnNone(j, "=>");
    assert SplitOn(t + "=>" + j, "=>") == [t, j];
  }

  /** Joined strings that lack a character give a join that lacks it, when the separator does. */
  lemma JoinedLacks(hs: seq<string>, c: char)
    requires c != ';' && forall i :: 0 <= i < |hs| ==> c !in hs[i]
    ensures c !in Join(hs, ";")
  {
    JoinLacks(hs, ";", c);
  }

  /** A good row's line imports as the row's entry. */
  lemma RowLineImport(r: Row)
    requires GoodRow(r)
    ensures ImportLine(RowLine(r)) == RowEntry(r)
  {
    var j := Join(r.hidden, ";");
    JoinedLacks(r.hidden, '>');
    JoinHasChar(r.hidden, ";", 0, r.hidden[0][0]);
    LinePartsOfTwo(r.text, j);
    TrimBlank(r.text);
    ImportHiddenOfJoin(r.hidden);
  }

  /** A good row's line is not empty and has no line break. */
  lemma RowLineNoBreak(r: Row)
    requires GoodRow(r)
    ensures |RowLine(r)| > 0 && NoSep(RowLine(r), {'\r', '\n'})
  {
    JoinedLacks(r.hidden, '\r');
    JoinedLacks(r.hidden, '\n');
    var line := RowLine(r);
    assert '\r' !in line && '\n' !in line;
  }

  /** The lines of good rows import as the rows' entries, one each, in order. */
  lemma {:induction false} ImportLinesOfRows(rows: seq<Row>)
    requires forall i :: 0 <= i < |rows| ==> GoodRow(rows[i])
    ensures ImportLines(RowLines(rows)) == RowEntries(rows)
  {
    if |rows| > 0 {
      var lines := RowLines(rows);
      assert lines[1..] == RowLines(rows[1..]);
      RowEntriesFront(rows);
      ImportLinesOfRows(rows[1..]);
      RowLineImport(rows[0]);
      ImportLinesFront(lines, RowEntry(rows[0]));
    }
  }

  lemma RowEntriesFront(rows: seq<Row>)
    requires |rows| > 0
    ensures RowEntries(rows) == [RowEntry(rows[0])] + RowEntries(rows[1..])
  {
    var es, tail := RowEntries(rows), RowEntries(rows[1..]);
    assert es[1..] == tail by {
      forall i | 0 <= i < |tail| ensures es[1..][i] == tail[i] {
        assert rows[1..][i] == rows[i + 1];
      }
    }
    SeqFront(es);
  }

  /** A first line that imports puts its entry first. */
  lemma ImportLinesFront(lines: seq<string>, e: Option<Entry>)
    requires |lines| > 0 && e.Some? && ImportLine(lines[0]) == e
    ensures ImportLines(lines) == [e] + ImportLines(lines[1..])
  {
  }

  /**
   * Round trip: good rows written one per line, as `text=>h1;h2`, import as
   * exactly their entries, in order, with the text normalised and the hidden
   * strings as written.
   */
  lemma ImportRoundTrip(rows: seq<Row>)
    requires forall i :: 0 <= i < |rows| ==> GoodRow(rows[i])
    ensures ImportFromBuffer(Some(RowsBuffer(rows))) == HiddenMap(2, Some(RowEntries(rows)))
  {
    var lines := RowLines(rows);
    if |rows| > 0 {
      forall i | 0 <= i < |lines| ensures NoSep(lines[i], {'\r', '\n'}) && |lines[i]| > 0 {
        RowLineNoBreak(rows[i]);
      }
      SplitJoinChar(lines, '\n', {'\r', '\n'});
      NonEmptyOfNonEmpty(lines);
    }
    ImportLinesOfRows(rows);
  }

  /** Only the first two pieces of a line are read: a further `=>` and whatever follows it are ignored. */
  lemma ImportIgnoresThirdPiece(t: string, h: string, c: string)
    requires '>' !in t && '>' !in h && |t| > 0 && |h| > 0
    ensures ImportLine(t + "=>" + h + "=>" + c) == ImportLine(t + "=>" + h)
  {
    var a := t + "=>" + h + "=>" + c;
    var b := t + "=>" + h;
    LinePartsOfThree(t, h, c);
    LinePartsOfTwo(t, h);
    SameFirstParts(a, b);
  }

  /** A line's import depends only on its first two pieces. */
  lemma SameFirstParts(a: string, b: string)
    requires |LineParts(a)| >= 2 && |LineParts(b)| >= 2
    requires LineParts(a)[0] == LineParts(b)[0] && LineParts(a)[1] == LineParts(b)[1]
    ensures ImportLine(a) == ImportLine(b)
  {
  }

  lemma LinePartsOfThree(t: string, h: string, c: string)
    requires '>' !in t && '>' !in h && |t| > 0 && |h| > 0
    ensures |LineParts(t + "=>" + h + "=>" + c)| >= 2
    ensures LineParts(t + "=>" + h + "=>" + c)[0] == t && LineParts(t + "=>" + h + "=>" + c)[1] == h
  {
    SplitOnThree(t, h, c);
    var xs := SplitOn(t + "=>" + h + "=>" + c, "=>");
    NonEmptyTwo(xs, t, h, SplitOn(c, "=>"));
    FirstTwo(NonEmpty(xs), t, h, NonEmpty(SplitOn(c, "=>")));
  }

  lemma FirstTwo(xs: seq<string>, t: string, h: string, tail: seq<string>)
    requires xs == [t, h] + tail
    ensures |xs| >= 2 && xs[0] == t && xs[1] == h
  {
  }

  lemma NonEmptyTwo(xs: seq<string>, t: string, h: string, tail: seq<string>)
    requires |t| > 0 && |h| > 0 && xs == [t, h] + tail
    ensures NonEmpty(xs) == [t, h] + NonEmpty(tail)
  {
    PairCons(t, h, tail);
    NonEmptyCons(t, [h] + tail);
    NonEmptyCons(h, tail);
    PairCons(t, h, NonEmpty(tail));
  }

  lemma NonEmptyCons(x: string, xs: seq<string>)
    requires |x| > 0
    ensures NonEmpty([x] + xs) == [x] + NonEmpty(xs)
  {
    assert ([x] + xs)[1..] == xs;
  }

  lemma SplitOnThree(t: string, h: string, c: string)
    requires '>' !in t && '>' !in h
    ensures SplitOn(t + "=>" + h + "=>" + c, "=>") == [t, h] + SplitOn(c, "=>")
  {
    var rest := h + "=>" + c;
    assert t + "=>" + h + "=>" + c == t + "=>" + rest;
    NoArrowBefore(t, rest);
    SplitOnFirst(t, "=>", rest);
    NoArrowBefore(h, c);
    SplitOnFirst(h, "=>", c);
  }

  // ---------------------------------------------------------------------------
  // Reload
  // ---------------------------------------------------------------------------

  /** An entry whose `Match` is not blank and already normal. */
  predicate NormalText(e: Option<Entry>) {
    e.Some? && e.value.text.Some? && !IsBlank(e.value.text.value) && Normalize(e.value.text.value) == e.value.text.value
  }

  /** An entry the loader keeps as it is. */
  predicate Stable(e: Option<Entry>) {
    WellFormed(e) && NormalText(e)
  }

  /** Cleaning leaves stable entries as they are. */
  lemma {:induction false} CleanEntriesOfStable(ms: Mappings)
    requires forall e :: e in ms ==> Stable(e)
    ensures CleanEntries(ms) == ms
  {
    if |ms| > 0 {
      StableSplit(ms);
      CleanStable(ms[0]);
      CleanEntriesOfStable(ms[1..]);
      SeqFront(ms);
    }
  }

  lemma StableSplit(ms: Mappings)
    requires |ms| > 0 && forall e :: e in ms ==> Stable(e)
    ensures Stable(ms[0]) && forall e :: e in ms[1..] ==> Stable(e)
  {
    assert ms[0] in ms;
    assert forall e :: e in ms[1..] ==> e in ms;
  }

  /** Cleaning leaves a stable entry as it is. */
  lemma CleanStable(e: Option<Entry>)
    requires Stable(e)
    ensures Usable(e) && CleanEntry(e) == e
  {
    var h := e.value.hidden.value;
    NonBlankOfNonBlank(h);
    DistinctOfDistinct(h);
  }

  /**
   * After an import whose entries are stable, the reload reads back exactly
   * the imported entries as the user file: the table is the built-ins and the
   * seeds, merged with them.
   */
  lemma ImportReload(l: Loader, buffer: Option<string>, seeds: FileRead)
    requires forall e :: e in ImportLines(BufferLines(buffer)) ==> NormalText(e)
    ensures ImportAndReload(l, buffer, seeds, true, false).current ==
      MergeMappings(Some(MergeMappings(Some(GetBuiltInMappings()), Some(LoadMappingFile(seeds)))), Some(ImportLines(BufferLines(buffer))))
  {
    var ms := ImportLines(BufferLines(buffer));
    ImportLinesShape(BufferLines(buffer));
    LoadStable(ms);
  }

  /** A document of stable entries loads as exactly those entries. */
  lemma LoadStable(ms: Mappings)
    requires forall e :: e in ms ==> Stable(e)
    ensures LoadMappingFile(Parsed(Some(HiddenMap(2, Some(ms))))) == ms
  {
    CleanEntriesOfStable(ms);
  }
}
