/**
 * `extract_use_case_details`: the lenient parser that turns generated text
 * into use-case records. The text is cut into blocks at every exact
 * "\n\n"; each block is stripped and then cut at every "\n" into lines,
 * which are not stripped one by one; a line that starts with
 * one of three exact markers sets the title, the description or the keyword
 * list of the block's record, and a block yields a record only when at least
 * one marker line set something.
 */
module UseCaseParser {
  import opened Wrappers
  import opened Strings

  /**
   * The Python dict built for one block: a field is `None` when its key was
   * never set, so a record may lack any of the three.
   */
  datatype UseCase = UseCase(title: Option<string>, description: Option<string>, keywords: Option<seq<string>>)

  /** The empty dict a block starts from. */
  const NoFields: UseCase := UseCase(None, None, None)

  const BlockSeparator: string := "\n\n"
  const LineSeparator: string := "\n"
  const KeywordSeparator: string := ","
  const TitleMarker: string := "**Use Case Title:**"
  const DescriptionMarker: string := "**Description:**"
  const KeywordsMarker: string := "**Keywords:**"

  /** Only the first four comma-separated keywords are kept. */
  const MaxKeywords: nat := 4

  datatype Field = Title | Description | Keywords

  function MarkerOf(f: Field): string {
    match f
    case Title => TitleMarker
    case Description => DescriptionMarker
    case Keywords => KeywordsMarker
  }

  predicate IsMarkerLine(line: string) {
    StartsWith(line, TitleMarker) || StartsWith(line, DescriptionMarker) || StartsWith(line, KeywordsMarker)
  }

  /** A line starts with at most one of the markers (they differ in their third character). */
  lemma MarkersExclusive(line: string, f: Field, g: Field)
    ensures StartsWith(line, MarkerOf(f)) && StartsWith(line, MarkerOf(g)) ==> f == g
  {
    if StartsWith(line, MarkerOf(f)) && StartsWith(line, MarkerOf(g)) {
      assert line[2] == MarkerOf(f)[2] && line[2] == MarkerOf(g)[2];
    }
  }

  /**
   * `line.split(marker)[1]` on a line that starts with `marker`: the text
   * right after the marker, up to the next occurrence of the marker on the
   * same line or to the end of the line.
   */
  function ValueAfter(line: string, marker: string): (v: string)
    requires |marker| > 0 && StartsWith(line, marker)
    ensures |marker| + |v| <= |line| && v == line[|marker|..|marker| + |v|]
    ensures !Contains(v, marker)
    ensures |marker| + |v| == |line| || OccursAt(line, marker, |marker| + |v|)
    ensures forall j :: |marker| <= j < |marker| + |v| ==> !OccursAt(line, marker, j)
  {
    ValueAfterShape(line, marker);
    Split(line, marker)[1]
  }

  lemma ValueAfterShape(line: string, marker: string)
    requires |marker| > 0 && StartsWith(line, marker)
    ensures |Split(line, marker)| >= 2
    ensures var v := Split(line, marker)[1];
      && |marker| + |v| <= |line| && v == line[|marker|..|marker| + |v|]
      && !Contains(v, marker)
      && (|marker| + |v| == |line| || OccursAt(line, marker, |marker| + |v|))
      && (forall j :: |marker| <= j < |marker| + |v| ==> !OccursAt(line, marker, j))
  {
    var rest := line[|marker|..];
    SplitAtLeadingSeparator(line, marker);
    var v := Split(line, marker)[1];
    assert v == Split(rest, marker)[0];
    assert !Contains(v, marker) by {
      SplitJoin(rest, marker);
    }
    FirstPieceAfterMarker(line, marker, rest, v);
  }

  lemma FirstPieceAfterMarker(line: string, marker: string, rest: string, v: string)
    requires |marker| > 0 && |marker| <= |line| && rest == line[|marker|..]
    requires v == Split(rest, marker)[0]
    ensures |marker| + |v| <= |line| && v == line[|marker|..|marker| + |v|]
    ensures |marker| + |v| == |line| || OccursAt(line, marker, |marker| + |v|)
    ensures forall j :: |marker| <= j < |marker| + |v| ==> !OccursAt(line, marker, j)
  {
    SplitFirstPiece(rest, marker, v);
    if |v| < |rest| {
      OccursInSuffix(line, marker, |marker|, |v|);
    }
    SliceOfSuffix(line, |marker|, v);
    NoOccurrenceInSuffix(line, marker, |marker|, |v|);
  }

  /** No occurrence in the first `n` positions of `s[m..]` is none in positions `m` to `m + n` of `s`. */
  lemma NoOccurrenceInSuffix(s: string, sep: string, m: nat, n: nat)
    requires m <= |s| && forall j :: 0 <= j < n ==> !OccursAt(s[m..], sep, j)
    ensures forall j :: m <= j < m + n ==> !OccursAt(s, sep, j)
  {
    forall j | m <= j < m + n
      ensures !OccursAt(s, sep, j)
    {
      if OccursAt(s, sep, j) {
        assert s[j..j + |sep|] == s[m..][j - m..j - m + |sep|];
        assert OccursAt(s[m..], sep, j - m);
      }
    }
  }

  lemma SliceOfSuffix(s: string, m: nat, v: string)
    requires m <= |s| && |v| <= |s| - m && v == s[m..][..|v|]
    ensures v == s[m..m + |v|]
  {
  }

  lemma OccursInSuffix(s: string, sep: string, m: nat, k: nat)
    requires m <= |s| && OccursAt(s[m..], sep, k)
    ensures OccursAt(s, sep, m + k)
  {
    assert s[m + k..m + k + |sep|] == s[m..][k..k + |sep|];
  }

  /** `[k.strip() for k in value.strip().split(",")[:4]]` */
  function KeywordList(value: string): (ks: seq<string>)
    ensures 1 <= |ks| <= MaxKeywords
  {
    var fragments := Split(Strip(value), KeywordSeparator);
    var kept := fragments[..Min(MaxKeywords, |fragments|)];
    seq(|kept|, i requires 0 <= i < |kept| => Strip(kept[i]))
  }

  /**
   * The keyword list holds the first four comma-separated fields of the
   * stripped value, in their original order, each stripped; fewer only when
   * the value has fewer fields.
   */
  lemma KeywordsAreLeadingFields(value: string, fields: seq<string>)
    requires |fields| >= 1 && Join(fields, ",") == Strip(value)
    requires forall i :: 0 <= i < |fields| ==> ',' !in fields[i]
    ensures |KeywordList(value)| == Min(MaxKeywords, |fields|)
    ensures forall i :: 0 <= i < |KeywordList(value)| ==> KeywordList(value)[i] == Strip(fields[i])
  {
    SplitCharIsUnique(Strip(value), ',', fields);
  }

  /** A blank keywords value yields one empty keyword, not an empty list. */
  lemma BlankKeywordsValue(value: string)
    requires AllSpace(value)
    ensures KeywordList(value) == [""]
  {
    StripBlank(value);
    KeywordsAreLeadingFields(value, [""]);
    assert AllSpace("");
  }

  /** One step of the inner loop: the record after looking at `line`. */
  function ApplyLine(uc: UseCase, line: string): UseCase {
    if StartsWith(line, TitleMarker) then
      uc.(title := Some(Strip(ValueAfter(line, TitleMarker))))
    else if StartsWith(line, DescriptionMarker) then
      uc.(description := Some(Strip(ValueAfter(line, DescriptionMarker))))
    else if StartsWith(line, KeywordsMarker) then
      uc.(keywords := Some(KeywordList(ValueAfter(line, KeywordsMarker))))
    else
      uc
  }

  /** The record after looking at every line of a block, first to last. */
  function ScanLines(lines: seq<string>): UseCase {
    if lines == [] then NoFields
    else ApplyLine(ScanLines(lines[..|lines| - 1]), lines[|lines| - 1])
  }

  lemma ScanLinesStep(lines: seq<string>, l: nat)
    requires l < |lines|
    ensures ScanLines(lines[..l + 1]) == ApplyLine(ScanLines(lines[..l]), lines[l])
  {
    assert lines[..l + 1][..l] == lines[..l];
  }

  /** `block.strip().split("\n")` */
  function Lines(block: string): seq<string> {
    Split(Strip(block), LineSeparator)
  }

  /** What one block contributes: its record, when any marker line set a field (`if use_case:`). */
  function ParseBlock(block: string): Option<UseCase> {
    var uc := ScanLines(Lines(block));
    if uc == NoFields then None else Some(uc)
  }

  function ParseBlocks(blocks: seq<string>): seq<UseCase> {
    if blocks == [] then []
    else
      var last := blocks[|blocks| - 1];
      ParseBlocks(blocks[..|blocks| - 1]) + (if ParseBlock(last).Some? then [ParseBlock(last).value] else [])
  }

  lemma ParseBlocksStep(blocks: seq<string>, b: nat)
    requires b < |blocks|
    ensures ParseBlocks(blocks[..b + 1]) ==
              ParseBlocks(blocks[..b]) + (if ParseBlock(blocks[b]).Some? then [ParseBlock(blocks[b]).value] else [])
  {
    assert blocks[..b + 1][..b] == blocks[..b];
  }

  /** The records `extract_use_case_details` returns for `text`. */
  function ParseText(text: string): seq<UseCase> {
    ParseBlocks(Split(text, BlockSeparator))
  }

  /** `extract_use_case_details(use_case_text)` */
  method ExtractUseCaseDetails(useCaseText: string) returns (useCases: seq<UseCase>)
    ensures useCases == ParseText(useCaseText)
  {
    useCases := [];
    var useCaseBlocks := Split(useCaseText, BlockSeparator);
    for b := 0 to |useCaseBlocks|
      invariant useCases == ParseBlocks(useCaseBlocks[..b])
    {
      var block := useCaseBlocks[b];
      var lines := Split(Strip(block), LineSeparator);
      var useCase := NoFields;
      for l := 0 to |lines|
        invariant useCase == ScanLines(lines[..l])
      {
        var line := lines[l];
        ghost var before := useCase;
        if StartsWith(line, TitleMarker) {
          useCase := useCase.(title := Some(Strip(ValueAfter(line, TitleMarker))));
        } else if StartsWith(line, DescriptionMarker) {
          useCase := useCase.(description := Some(Strip(ValueAfter(line, DescriptionMarker))));
        } else if StartsWith(line, KeywordsMarker) {
          var keywords := Split(Strip(ValueAfter(line, KeywordsMarker)), KeywordSeparator);
          var kept := keywords[..Min(MaxKeywords, |keywords|)];
          useCase := useCase.(keywords := Some(seq(|kept|, i requires 0 <= i < |kept| => Strip(kept[i]))));
          assert useCase.keywords == Some(KeywordList(ValueAfter(line, KeywordsMarker)));
        }
        assert useCase == ApplyLine(before, line);
        ScanLinesStep(lines, l);
      }
      assert lines[..|lines|] == lines;
      if useCase != NoFields {
        useCases := useCases + [useCase];
      }
      ParseBlocksStep(useCaseBlocks, b);
    }
    assert useCaseBlocks[..|useCaseBlocks|] == useCaseBlocks;
  }

  // ---------------------------------------------------------------------------
  // Properties of the parse
  // ---------------------------------------------------------------------------

  predicate Present(uc: UseCase, f: Field) {
    match f
    case Title => uc.title.Some?
    case Description => uc.description.Some?
    case Keywords => uc.keywords.Some?
  }

  /** Field `f` of `uc` holds the value the marker line `line` gives it. */
  predicate SetBy(uc: UseCase, f: Field, line: string)
    requires StartsWith(line, MarkerOf(f))
  {
    match f
    case Title => uc.title == Some(Strip(ValueAfter(line, TitleMarker)))
    case Description => uc.description == Some(Strip(ValueAfter(line, DescriptionMarker)))
    case Keywords => uc.keywords == Some(KeywordList(ValueAfter(line, KeywordsMarker)))
  }

  /** Line `j` is the last line of `lines` that starts with the marker of `f`. */
  predicate LastMarkerLine(lines: seq<string>, f: Field, j: int) {
    && 0 <= j < |lines|
    && StartsWith(lines[j], MarkerOf(f))
    && forall k :: j < k < |lines| ==> !StartsWith(lines[k], MarkerOf(f))
  }

  /** `a` and `b` agree on field `f`. */
  predicate SameField(a: UseCase, b: UseCase, f: Field) {
    match f
    case Title => a.title == b.title
    case Description => a.description == b.description
    case Keywords => a.keywords == b.keywords
  }

  /** A line starting with the marker of `f` sets `f`; any other line leaves `f` alone. */
  lemma ApplyLineField(uc: UseCase, line: string, f: Field)
    ensures StartsWith(line, MarkerOf(f)) ==> Present(ApplyLine(uc, line), f) && SetBy(ApplyLine(uc, line), f, line)
    ensures !StartsWith(line, MarkerOf(f)) ==> SameField(ApplyLine(uc, line), uc, f)
  {
    match f
    case Title =>
    case Description =>
      if StartsWith(line, DescriptionMarker) {
        MarkersExclusive(line, Description, Title);
      }
    case Keywords =>
      if StartsWith(line, KeywordsMarker) {
        MarkersExclusive(line, Keywords, Title);
        MarkersExclusive(line, Keywords, Description);
      }
  }

  /**
   * A field is absent exactly when no line starts with its marker; when
   * present, it holds the value of the LAST line that starts with its marker.
   */
  lemma {:induction false} FieldComesFromLastMarkerLine(lines: seq<string>, f: Field)
    ensures !Present(ScanLines(lines), f) <==> forall j :: 0 <= j < |lines| ==> !StartsWith(lines[j], MarkerOf(f))
    ensures Present(ScanLines(lines), f) ==>
              exists j :: LastMarkerLine(lines, f, j) && SetBy(ScanLines(lines), f, lines[j])
  {
    if lines != [] {
      var init := lines[..|lines| - 1];
      var line := lines[|lines| - 1];
      FieldComesFromLastMarkerLine(init, f);
      var before := ScanLines(init);
      var after := ScanLines(lines);
      assert after == ApplyLine(before, line);
      ApplyLineField(before, line, f);
      if StartsWith(line, MarkerOf(f)) {
        assert LastMarkerLine(lines, f, |lines| - 1);
      } else {
        assert SameField(after, before, f);
        assert forall j :: 0 <= j < |init| ==> lines[j] == init[j];
        if Present(before, f) {
          var j :| LastMarkerLine(init, f, j) && SetBy(before, f, init[j]);
          assert LastMarkerLine(lines, f, j);
        }
      }
    }
  }

  /**
   * A block yields a record exactly when one of its lines starts with one of
   * the three markers; blocks without a marker line contribute nothing.
   */
  lemma BlockYieldsRecordIffMarkerLine(block: string)
    ensures ParseBlock(block).Some? <==> exists j :: 0 <= j < |Lines(block)| && IsMarkerLine(Lines(block)[j])
  {
    var lines := Lines(block);
    FieldComesFromLastMarkerLine(lines, Title);
    FieldComesFromLastMarkerLine(lines, Description);
    FieldComesFromLastMarkerLine(lines, Keywords);
    var uc := ScanLines(lines);
    assert uc == NoFields <==> !Present(uc, Title) && !Present(uc, Description) && !Present(uc, Keywords);
  }

  /** A blank block (for instance the text between two consecutive blank lines) yields no record. */
  lemma BlankBlockYieldsNothing(block: string)
    requires AllSpace(block)
    ensures ParseBlock(block) == None
  {
    StripBlank(block);
    assert Lines(block) == [""] by {
      SplitCharIsUnique("", '\n', [""]);
      assert AllSpace("");
    }
    assert !IsMarkerLine("");
    BlockYieldsRecordIffMarkerLine(block);
  }

  /**
   * Records come out in block order, one per block that has a marker line:
   * parsing a sequence of blocks is parsing its parts and concatenating.
   */
  lemma {:induction false} ParseBlocksConcat(a: seq<string>, b: seq<string>)
    ensures ParseBlocks(a + b) == ParseBlocks(a) + ParseBlocks(b)
    decreases |b|
  {
    if b != [] {
      var init := b[..|b| - 1];
      assert (a + b)[..|a + b| - 1] == a + init;
      ParseBlocksConcat(a, init);
    } else {
      assert a + b == a;
    }
  }

  /** One block on its own yields its record, or nothing. */
  lemma ParseOneBlock(block: string)
    ensures ParseBlocks([block]) == if ParseBlock(block).Some? then [ParseBlock(block).value] else []
  {
    assert [block][..0] == [];
  }
}
