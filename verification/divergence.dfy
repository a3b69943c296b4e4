/** A savegame on which decoding, re-encoding and decoding again loses an
    entry. `parse_variables` counts brackets inside quotes too, so a text value
    holding an unbalanced `[` is cut off correctly only while the stray `]`
    after it in the file balances it; `save_savegame` writes the value back
    without that `]`, and the next read no longer cuts at the comma after it. */
module Divergence {
  import opened Wrappers
  import opened PyStr
  import opened Values
  import opened Scanner
  import opened ItemPattern
  import opened Codec
  import opened RoundTrip

  /** The savegame: `Variable={["k"]="a["], ["j"]=1};`. */
  const Sample: string := "Variable={[\"k\"]=\"a[\"], [\"j\"]=1};"

  /** What lies between its braces. */
  const SampleBody: string := "[\"k\"]=\"a[\"], [\"j\"]=1"

  /** Its first item, with the stray `]` after the value. */
  const TextItem: string := "[\"k\"]=\"a[\"]"

  /** Its second item, as the encoder would write it. */
  const IntItem: string := "[\"j\"]=1"

  /** What the encoder writes between the braces for the decoded entries. */
  const RewrittenBody: string := "[\"k\"]=\"a[\", [\"j\"]=1"

  /** The entries the savegame holds. */
  const SampleEntries: seq<Entry> := [Entry("k", Text("a[")), Entry("j", Int(1))]

  /** The savegame decodes to two entries, the first a text holding `a[`;
      written back and read again, only the first is left, and its value has
      absorbed nothing, but the second entry is gone. */
  lemma ReencodeLosesEntry()
    ensures Decode(Sample) == SampleEntries && |Decode(Sample)| == 2
    ensures Decode(Encode(Decode(Sample))) == [Entry("k", Text("a["))]
    ensures Decode(Encode(Decode(Sample))) != Decode(Sample)
  {
    SampleDecode();
    SampleEncode();
    RewrittenDecode();
  }

  lemma SampleDecode()
    ensures Decode(Sample) == SampleEntries
  {
    SampleWrapper();
    SampleItems();
    SampleItemsDecode();
  }

  lemma SampleWrapper()
    ensures WrapperBody(Sample) == Some(SampleBody) && Strip(SampleBody) == SampleBody
  {
    assert Sample == Opening + SampleBody + Closing;
    assert '}' !in SampleBody;
    WrapperOfText(SampleBody);
    StripTrimmed(SampleBody);
  }

  /** The scan cuts at the comma after the stray `]`. */
  lemma SampleItems()
    ensures TopLevelItems(SampleBody) == [TextItem, IntItem]
  {
    SamplePieces();
    var ps := [TextItem, " " + IntItem];
    assert ps == [TextItem] + [" " + IntItem];
    FinishLast([TextItem], " " + IntItem);
    SampleStrips();
    assert StripEach([TextItem]) == [TextItem];
  }

  /** Stripping the two pieces removes the space before the second. */
  lemma SampleStrips()
    ensures Strip(TextItem) == TextItem && Strip(" " + IntItem) == IntItem
  {
    StripTrimmed(TextItem);
    assert " " + IntItem == [' '] + IntItem;
    StripSpacePrefix(' ', IntItem);
    StripTrimmed(IntItem);
  }

  lemma SamplePieces()
    ensures PiecesFrom(SampleBody, 0) == [TextItem, " " + IntItem]
  {
    var ps := [TextItem, " " + IntItem];
    assert SampleBody == JoinCommas(ps);
    TextItemBalanced();
    IntPieceBalanced();
    PiecesOfJoin(ps);
  }

  lemma SampleItemsDecode()
    ensures DecodeItems([TextItem, IntItem]) == SampleEntries
  {
    TextItemDecode();
    IntItemDecode();
    DecodeItemsAppend([TextItem], [IntItem]);
    assert [TextItem] + [IntItem] == [TextItem, IntItem];
  }

  lemma TextItemDecode()
    ensures DecodeItem(TextItem) == [Entry("k", Text("a["))]
  {
    TextItemMatch();
    QuotedSampleValue();
  }

  lemma IntItemDecode()
    ensures DecodeItem(IntItem) == [Entry("j", Int(1))]
  {
    IntItemMatch();
    ClassifyOne();
  }

  lemma IntItemMatch()
    ensures MatchItem(IntItem) == Some(ItemMatch("j", "1"))
  {
    assert IntItem == ItemText("j", "1");
    MatchItemText("j", "1");
  }

  /** The word `1` is the integer 1. */
  lemma ClassifyOne()
    ensures Classify("1") == Int(1)
  {
    assert PyInt("1") == Some(1);
  }

  /** The quoted literal of the first item is the text `a[`. */
  lemma QuotedSampleValue()
    ensures Classify("\"a[\"") == Text("a[")
  {
    var lit := "\"a[\"";
    assert lit[1..|lit| - 1] == "a[";
  }

  lemma SampleEncode()
    ensures Encode(SampleEntries) == Opening + RewrittenBody + Closing
  {
    assert SampleEntries[..1] == [SampleEntries[0]];
    assert Literal(Int(1)) == "1";
    assert ItemsText(SampleEntries) == EncodeEntry(SampleEntries[0]) + ", " + EncodeEntry(SampleEntries[1]);
  }

  lemma RewrittenDecode()
    ensures Decode(Opening + RewrittenBody + Closing) == [Entry("k", Text("a["))]
  {
    RewrittenWrapper();
    RewrittenItems();
    RewrittenItemDecode();
  }

  /** Read again, the single item matches with the first key and value; the
      rest of it is ignored. */
  lemma RewrittenItemDecode()
    ensures DecodeItem(RewrittenBody) == [Entry("k", Text("a["))]
  {
    RewrittenMatch();
    QuotedSampleValue();
  }

  lemma RewrittenWrapper()
    ensures WrapperBody(Opening + RewrittenBody + Closing) == Some(RewrittenBody)
    ensures Strip(RewrittenBody) == RewrittenBody
  {
    assert '}' !in RewrittenBody;
    WrapperOfText(RewrittenBody);
    StripTrimmed(RewrittenBody);
  }

  /** The rewritten body is one item. */
  lemma RewrittenItems()
    ensures TopLevelItems(RewrittenBody) == [RewrittenBody]
  {
    var r := RewrittenBody;
    RewrittenNoCut();
    SkipNoCuts(r, 0, 0, |r|);
    assert PiecesFrom(r, 0) == [r];
    StripTrimmed(r);
  }

  /** The comma after the rewritten text value is inside a bracket, so the
      scan never cuts. */
  lemma RewrittenNoCut()
    ensures forall j :: 0 <= j < |RewrittenBody| ==> !IsCut(RewrittenBody, 0, j)
  {
    var r := RewrittenBody;
    var u := r[..10];
    var w := r[11..];
    assert ',' !in u && ',' !in w;
    assert Depth(r, 0, 1) == 1;
    assert Depth(r, 0, 2) == 1;
    assert Depth(r, 0, 3) == 1;
    assert Depth(r, 0, 4) == 1;
    assert Depth(r, 0, 5) == 0;
    assert Depth(r, 0, 6) == 0;
    assert Depth(r, 0, 7) == 0;
    assert Depth(r, 0, 8) == 0;
    assert Depth(r, 0, 9) == 1;
    assert Depth(r, 0, 10) == 1;
    forall j | 0 <= j < |r|
      ensures !IsCut(r, 0, j)
    {
      if j < 10 {
        assert r[j] == u[j];
      } else if j > 10 {
        assert r[j] == w[j - 11];
      }
    }
  }

  lemma TextItemBalanced()
    ensures Balanced(TextItem)
  {
    var p := TextItem;
    assert |p| == 11;
    assert Depth(p, 0, 1) == 1;
    assert Depth(p, 0, 2) == 1;
    assert Depth(p, 0, 3) == 1;
    assert Depth(p, 0, 4) == 1;
    assert Depth(p, 0, 5) == 0;
    assert Depth(p, 0, 6) == 0;
    assert Depth(p, 0, 7) == 0;
    assert Depth(p, 0, 8) == 0;
    assert Depth(p, 0, 9) == 1;
    assert Depth(p, 0, 10) == 1;
    assert Quotes(p, 0, 4) == 2;
    assert Quotes(p, 0, 10) == 4;
    assert ',' !in p;
  }

  lemma IntPieceBalanced()
    ensures Balanced(" " + IntItem)
  {
    var p := " " + IntItem;
    assert |p| == 8;
    assert Depth(p, 0, 2) == 1;
    assert Depth(p, 0, 5) == 1;
    assert Depth(p, 0, 6) == 0;
    assert Quotes(p, 0, 8) == 2;
    assert ',' !in p;
  }

  lemma TextItemMatch()
    ensures MatchItem(TextItem) == Some(ItemMatch("k", "\"a[\""))
  {
    var p := TextItem;
    assert MatchAfterKey(p, 0).None?;
    assert MatchValue(p, 6) == Some(10);
    assert MatchAfterKey(p, 1) == Some(Span(6, 10));
    assert MatchKeyFrom(p, 0) == Some(1);
    assert p[2..3] == "k";
    assert p[6..10] == "\"a[\"";
  }

  lemma RewrittenMatch()
    ensures MatchItem(RewrittenBody) == Some(ItemMatch("k", "\"a[\""))
  {
    var p := RewrittenBody;
    assert MatchAfterKey(p, 0).None?;
    assert MatchValue(p, 6) == Some(10);
    assert MatchAfterKey(p, 1) == Some(Span(6, 10));
    assert MatchKeyFrom(p, 0) == Some(1);
    assert p[2..3] == "k";
    assert p[6..10] == "\"a[\"";
  }
}
