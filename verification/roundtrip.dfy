/** Decoding what the editor writes gives back the list it wrote, for the
    entries the format can carry: keys and texts with no double quote, no
    bracket, no newline and no `};`, and integers that are not negative. */
module RoundTrip {
  import opened Wrappers
  import opened PyStr
  import opened Values
  import opened Scanner
  import opened ItemPattern
  import opened Codec

  /** No `}` directly followed by `;`. */
  predicate NoCloser(s: string) {
    forall j :: 0 <= j < |s| - 1 ==> !(s[j] == '}' && s[j + 1] == ';')
  }

  /** Neither a double quote nor a bracket: the scan's depth and quote
      count do not move over it. */
  predicate Plain(c: char) {
    c != '"' && c != '[' && c != ']'
  }

  /** A key or a text that survives the trip through the file format. */
  predicate SafeText(s: string) {
    && (forall j :: 0 <= j < |s| ==> Plain(s[j]) && s[j] != '\n')
    && NoCloser(s)
  }

  predicate SafeValue(v: Value) {
    && (v.Text? ==> SafeText(v.s))
    && (v.Int? ==> v.i >= 0)
  }

  predicate SafeEntry(e: Entry) {
    SafeText(e.key) && SafeValue(e.value)
  }

  predicate AllSafe(vs: seq<Entry>) {
    forall k :: 0 <= k < |vs| ==> SafeEntry(vs[k])
  }

  /** The literal of a value the format can carry: a value token, quoted
      exactly for text, with no bracket or quote inside the quotes and only
      word characters otherwise. */
  lemma LiteralLayout(v: Value)
    requires SafeValue(v)
    ensures var lit := Literal(v);
      && IsValueToken(lit) && (IsQuotedRun(lit) <==> v.Text?)
      && (v.Text? ==> forall j :: 1 <= j < |lit| - 1 ==> Plain(lit[j]))
      && (!v.Text? ==> forall j :: 0 <= j < |lit| ==> IsWordChar(lit[j]))
      && NoCloser(lit)
  {
    var lit := Literal(v);
    match v
    case Text(s) =>
      forall j | 1 <= j < |lit| - 1
        ensures Plain(lit[j]) && lit[j] != '\n'
      {
        assert lit[j] == lit[1..|lit| - 1][j - 1];
      }
      forall j | 0 <= j < |lit| - 1
        ensures !(lit[j] == '}' && lit[j + 1] == ';')
      {
        if 1 <= j < |lit| - 2 {
          assert lit[j] == s[j - 1] && lit[j + 1] == s[j];
        }
      }
    case Bool(b) =>
    case Int(i) =>
      assert lit == NatToString(i);
  }

  /** Decoding the literal of a value the format can carry gives the value
      back. */
  lemma ClassifyLiteral(v: Value)
    requires SafeValue(v)
    ensures Classify(Literal(v)) == v
  {
    var lit := Literal(v);
    match v
    case Text(s) =>
    case Bool(b) =>
      if b {
        assert Lower(lit) == "true";
      } else {
        assert Lower(lit) != "true" by {
          assert Lower(lit)[0] == 'f';
        }
        assert Lower(lit) == "false";
      }
    case Int(i) =>
      assert lit == NatToString(i);
      assert lit[0] != '"';
      assert Lower(lit)[0] == lit[0];
  }

  /** The layout of an item the encoder writes, on the text alone: `["`, a
      key of length `n` with no bracket or quote, `"]=`, and a literal that
      is either quoted, with no bracket or quote inside, or made of word
      characters. */
  predicate ItemLayout(s: string, n: nat, quoted: bool) {
    && 6 + n <= |s| && s[0] == '[' && s[1] == '"' && s[2 + n] == '"' && s[3 + n] == ']' && s[4 + n] == '='
    && (forall j :: 2 <= j < 2 + n ==> Plain(s[j]))
    && (if quoted then
          && 7 + n <= |s| && s[5 + n] == '"' && s[|s| - 1] == '"'
          && forall j :: 6 + n <= j < |s| - 1 ==> Plain(s[j])
        else forall j :: 5 + n <= j < |s| ==> IsWordChar(s[j]))
  }

  /** The number of quotes a scan of such an item has passed after `j`
      characters. */
  function QuotesBefore(s: string, n: nat, quoted: bool, j: nat): nat {
    if j <= 1 then 0
    else if j <= 2 + n then 1
    else if j <= 5 + n || !quoted then 2
    else if j < |s| then 3
    else 4
  }

  /** The scan of such an item: at depth one from the `[` to the `]`, and
      the quote count as `QuotesBefore` gives it. */
  lemma {:induction false} ItemScan(s: string, n: nat, quoted: bool, j: nat)
    requires ItemLayout(s, n, quoted) && j <= |s|
    ensures Depth(s, 0, j) == (if 1 <= j <= 3 + n then 1 else 0)
    ensures Quotes(s, 0, j) == QuotesBefore(s, n, quoted, j)
  {
    if j > 0 {
      ItemScan(s, n, quoted, j - 1);
      if 2 <= j - 1 < 2 + n {
        assert Plain(s[j - 1]);
      } else if quoted && 6 + n <= j - 1 < |s| - 1 {
        assert Plain(s[j - 1]);
      } else if !quoted && 5 + n <= j - 1 {
        assert IsWordChar(s[j - 1]);
      }
    }
  }

  /** Such an item is scanned whole, without a cut. */
  lemma ItemBalanced(s: string, n: nat, quoted: bool)
    requires ItemLayout(s, n, quoted)
    ensures Balanced(s)
  {
    ItemScan(s, n, quoted, |s|);
    forall j | 0 <= j < |s|
      ensures !IsCut(s, 0, j)
    {
      ItemScan(s, n, quoted, j);
      if !quoted && 5 + n <= j {
        assert IsWordChar(s[j]);
      }
    }
  }

  /** The item text of an entry the format can carry has that layout, holds
      no `};`, and neither starts nor ends with whitespace. */
  lemma EntryLayout(e: Entry)
    requires SafeEntry(e)
    ensures ItemLayout(EncodeEntry(e), |e.key|, e.value.Text?)
    ensures IsTrimmed(EncodeEntry(e)) && EncodeEntry(e)[0] == '['
    ensures NoCloser(EncodeEntry(e))
  {
    LiteralLayout(e.value);
    ItemTextLayout(e.key, Literal(e.value), e.value.Text?);
  }

  /** The same, on the key and the literal alone. */
  lemma ItemTextLayout(key: string, lit: string, quoted: bool)
    requires SafeText(key) && IsValueToken(lit) && NoCloser(lit) && (IsQuotedRun(lit) <==> quoted)
    requires quoted ==> forall j :: 1 <= j < |lit| - 1 ==> Plain(lit[j])
    requires !quoted ==> forall j :: 0 <= j < |lit| ==> IsWordChar(lit[j])
    ensures ItemLayout(ItemText(key, lit), |key|, quoted)
    ensures IsTrimmed(ItemText(key, lit)) && ItemText(key, lit)[0] == '['
    ensures NoCloser(ItemText(key, lit))
  {
    ItemTextChars(key, lit);
    CharsLaidOut(ItemText(key, lit), key, lit, quoted);
    assert lit[0] != ';' by {
      if !quoted {
        assert IsWordChar(lit[0]);
      }
    }
    ItemNoCloser(key, lit);
  }

  /** The layout, on the characters of the text alone. */
  lemma CharsLaidOut(s: string, key: string, lit: string, quoted: bool)
    requires SafeText(key) && IsValueToken(lit) && (IsQuotedRun(lit) <==> quoted)
    requires quoted ==> forall j :: 1 <= j < |lit| - 1 ==> Plain(lit[j])
    requires !quoted ==> forall j :: 0 <= j < |lit| ==> IsWordChar(lit[j])
    requires var n := |key|;
      && |s| == 5 + n + |lit| && s[0] == '[' && s[1] == '"'
      && s[2 + n] == '"' && s[3 + n] == ']' && s[4 + n] == '='
      && (forall j :: 0 <= j < n ==> s[2 + j] == key[j])
      && (forall j :: 0 <= j < |lit| ==> s[5 + n + j] == lit[j])
    ensures ItemLayout(s, |key|, quoted) && IsTrimmed(s)
  {
    var n := |key|;
    forall j | 2 <= j < 2 + n
      ensures Plain(s[j])
    {
      assert s[j] == key[j - 2];
    }
    if quoted {
      forall j | 6 + n <= j < |s| - 1
        ensures Plain(s[j])
      {
        assert s[j] == lit[j - (5 + n)];
      }
    } else {
      forall j | 5 + n <= j < |s|
        ensures IsWordChar(s[j])
      {
        assert s[j] == lit[j - (5 + n)];
      }
    }
    assert s[|s| - 1] == lit[|lit| - 1];
    assert !IsSpace(s[|s| - 1]) by {
      if !quoted {
        assert IsWordChar(lit[|lit| - 1]);
      }
    }
  }

  /** The characters of an item text, position by position. */
  lemma ItemTextChars(key: string, lit: string)
    ensures var s := ItemText(key, lit); var n := |key|;
      && |s| == 5 + n + |lit| && s[0] == '[' && s[1] == '"'
      && s[2 + n] == '"' && s[3 + n] == ']' && s[4 + n] == '='
      && (forall j :: 0 <= j < n ==> s[2 + j] == key[j])
      && (forall j :: 0 <= j < |lit| ==> s[5 + n + j] == lit[j])
  {
  }

  /** No `};` in an item when there is none in its key and literal. */
  lemma ItemNoCloser(key: string, lit: string)
    requires NoCloser(key) && NoCloser(lit) && lit != [] && lit[0] != ';'
    ensures NoCloser(ItemText(key, lit))
  {
    var open := "[\"";
    var close := "\"]=";
    NoCloserConcat(open, key);
    NoCloserConcat(open + key, close);
    NoCloserConcat(open + key + close, lit);
  }

  /** No `};` across a joint where the left part does not end with `}` or the
      right part does not start with `;`. */
  lemma NoCloserConcat(a: string, b: string)
    requires NoCloser(a) && NoCloser(b)
    requires a == [] || b == [] || a[|a| - 1] != '}' || b[0] != ';'
    ensures NoCloser(a + b)
  {
    var s := a + b;
    forall j | 0 <= j < |s| - 1
      ensures !(s[j] == '}' && s[j + 1] == ';')
    {
      if j + 1 < |a| {
        assert s[j] == a[j] && s[j + 1] == a[j + 1];
      } else if j >= |a| {
        assert s[j] == b[j - |a|] && s[j + 1] == b[j + 1 - |a|];
      } else {
        assert s[j] == a[|a| - 1] && s[j + 1] == b[0];
      }
    }
  }

  /** The results of `f` on each of `xs`, with the space of the separator
      kept in front of every one but the first: the pieces the top-level
      scan cuts a `", "` join into. */
  function SpacedMap<T>(f: T -> string, xs: seq<T>): (r: seq<string>)
    ensures |r| == |xs|
  {
    seq(|xs|, k requires 0 <= k < |xs| => if k == 0 then f(xs[0]) else " " + f(xs[k]))
  }

  /** The results of `f` on each of `xs`. */
  function Map<T, U>(f: T -> U, xs: seq<T>): (r: seq<U>)
    ensures |r| == |xs| && forall k :: 0 <= k < |xs| ==> r[k] == f(xs[k])
  {
    seq(|xs|, k requires 0 <= k < |xs| => f(xs[k]))
  }

  /** One more piece at the end of a comma join. */
  lemma {:induction false} JoinCommasSnoc(ps: seq<string>, p: string)
    requires ps != []
    ensures JoinCommas(ps + [p]) == JoinCommas(ps) + "," + p
    decreases |ps|
  {
    if |ps| == 1 {
      assert (ps + [p])[1..] == [p];
    } else {
      assert (ps + [p])[1..] == ps[1..] + [p];
      JoinCommasSnoc(ps[1..], p);
    }
  }

  /** A `", "` join is the comma join of the spaced pieces. */
  lemma {:induction false} JoinedCommas<T>(f: T -> string, xs: seq<T>)
    requires xs != []
    ensures Joined(f, ", ", xs) == JoinCommas(SpacedMap(f, xs))
    decreases |xs|
  {
    if |xs| > 1 {
      var m := |xs| - 1;
      JoinedCommas(f, xs[..m]);
      assert SpacedMap(f, xs) == SpacedMap(f, xs[..m]) + [" " + f(xs[m])];
      JoinCommasSnoc(SpacedMap(f, xs[..m]), " " + f(xs[m]));
      assert ", " + f(xs[m]) == "," + (" " + f(xs[m]));
    }
  }

  /** A `", "` join of texts that start with `[` and hold no `};` starts with
      `[`, ends where the last text ends and holds no `};`. */
  lemma {:induction false} JoinedEnds<T>(f: T -> string, xs: seq<T>)
    requires xs != []
    requires forall k :: 0 <= k < |xs| ==> |f(xs[k])| > 0 && f(xs[k])[0] == '[' && NoCloser(f(xs[k]))
    ensures var t := Joined(f, ", ", xs); var last := f(xs[|xs| - 1]);
      && |t| >= |last| && t[0] == '[' && t[|t| - 1] == last[|last| - 1] && NoCloser(t)
    decreases |xs|
  {
    var m := |xs| - 1;
    if m > 0 {
      JoinedEnds(f, xs[..m]);
      var init := Joined(f, ", ", xs[..m]);
      NoCloserConcat(init, ", ");
      NoCloserConcat(init + ", ", f(xs[m]));
    }
  }

  /** Stripping the spaced pieces gives the texts back when each text is
      what its piece strips to, and the last one is not blank. */
  lemma FinishSpaced<T>(f: T -> string, xs: seq<T>)
    requires xs != [] && f(xs[|xs| - 1]) != []
    requires forall k :: 0 <= k < |xs| ==> Strip(SpacedMap(f, xs)[k]) == f(xs[k])
    ensures Finish(SpacedMap(f, xs)) == Map(f, xs)
  {
    var ps := SpacedMap(f, xs);
    var m := |xs| - 1;
    assert Strip(ps[m]) == f(xs[m]);
    assert StripEach(ps[..m]) == Map(f, xs)[..m];
    assert Map(f, xs) == Map(f, xs)[..m] + [f(xs[m])];
  }

  /** An item text, with or without a space in front, is scanned whole and
      strips back to itself. */
  lemma SpacedPiece(t: string, n: nat, quoted: bool, spaced: bool)
    requires ItemLayout(t, n, quoted) && IsTrimmed(t)
    ensures var p := if spaced then " " + t else t;
      Balanced(p) && Strip(p) == t
  {
    ItemBalanced(t, n, quoted);
    StripTrimmed(t);
    if spaced {
      SpaceBalanced(t);
      StripSpacePrefix(' ', t);
      assert " " + t == [' '] + t;
    }
  }

  /** What the encoder makes of one entry the format can carry: it starts
      with `[`, holds no `};`, neither starts nor ends with whitespace, and
      is scanned whole with or without a space in front. */
  predicate GoodPiece(t: string) {
    && t != [] && t[0] == '[' && IsTrimmed(t) && NoCloser(t)
    && Balanced(t) && Balanced(" " + t) && Strip(" " + t) == t
  }

  lemma EntryPiece(e: Entry)
    requires SafeEntry(e)
    ensures GoodPiece(EncodeEntry(e))
  {
    EntryLayout(e);
    SpacedPiece(EncodeEntry(e), |e.key|, e.value.Text?, false);
    SpacedPiece(EncodeEntry(e), |e.key|, e.value.Text?, true);
  }

  /** The top-level scan of a `", "` join of good pieces gives the pieces back. */
  lemma TopLevelOfJoined<T>(f: T -> string, xs: seq<T>)
    requires forall k :: 0 <= k < |xs| ==> GoodPiece(f(xs[k]))
    ensures TopLevelItems(Strip(Joined(f, ", ", xs))) == Map(f, xs)
  {
    if xs == [] {
      assert PiecesFrom("", 0) == [""];
    } else {
      JoinedTrimmed(f, xs);
      JoinedCommas(f, xs);
      SpacedPiecesGood(f, xs);
      PiecesOfJoin(SpacedMap(f, xs));
      FinishSpaced(f, xs);
    }
  }

  /** A `", "` join of good pieces is left alone by `strip`. */
  lemma JoinedTrimmed<T>(f: T -> string, xs: seq<T>)
    requires xs != [] && forall k :: 0 <= k < |xs| ==> GoodPiece(f(xs[k]))
    ensures Strip(Joined(f, ", ", xs)) == Joined(f, ", ", xs)
  {
    JoinedEnds(f, xs);
    var t := Joined(f, ", ", xs);
    var last := f(xs[|xs| - 1]);
    assert t[|t| - 1] == last[|last| - 1];
    StripTrimmed(t);
  }

  /** The spaced pieces of good pieces are scanned whole and strip back to
      the pieces. */
  lemma SpacedPiecesGood<T>(f: T -> string, xs: seq<T>)
    requires forall k :: 0 <= k < |xs| ==> GoodPiece(f(xs[k]))
    ensures forall k :: 0 <= k < |xs| ==> Balanced(SpacedMap(f, xs)[k]) && Strip(SpacedMap(f, xs)[k]) == f(xs[k])
  {
    var ps := SpacedMap(f, xs);
    forall k | 0 <= k < |xs|
      ensures Balanced(ps[k]) && Strip(ps[k]) == f(xs[k])
    {
      if k == 0 {
        StripTrimmed(f(xs[k]));
      }
    }
  }

  /** The wrapper search finds the text between the braces again when it
      holds no `};`. */
  lemma WrapperOfText(b: string)
    requires NoCloser(b)
    ensures WrapperBody(Opening + b + Closing) == Some(b)
  {
    var e := Opening + b + Closing;
    var q := 10 + |b|;
    assert e[0..10] == Opening;
    assert e[q..q + 2] == Closing;
    assert e[10..q] == b;
    forall j: nat | 10 <= j < q
      ensures !OccursAt(e, Closing, j)
    {
      if j + 1 < q {
        assert e[j] == b[j - 10] && e[j + 1] == b[j + 1 - 10];
      } else {
        assert e[j + 1] == '}';
      }
    }
    WrapperBodyFirst(e, 0, q);
  }

  /** An entry the format can carry decodes from its own item text. */
  lemma DecodeEntryText(e: Entry)
    requires SafeEntry(e)
    ensures DecodeItem(EncodeEntry(e)) == [e]
  {
    LiteralLayout(e.value);
    var key := e.key;
    assert NoQuote(key) && NoNewline(key) by {
      forall j | 0 <= j < |key| ensures key[j] != '"' && key[j] != '\n' {
        assert Plain(key[j]);
      }
    }
    MatchItemText(key, Literal(e.value));
    ClassifyLiteral(e.value);
  }

  /** A negative integer is written with a leading `-`, which the value
      pattern does not accept: such an entry is gone when the file is read
      back. */
  lemma NegativeIntDropped(key: string, i: int)
    requires NoQuote(key) && NoNewline(key) && i < 0
    ensures Literal(Int(i))[0] == '-'
    ensures DecodeItem(EncodeEntry(Entry(key, Int(i)))) == []
  {
    var lit := Literal(Int(i));
    var d := NatToString(-i);
    assert lit == "-" + d;
    assert NoQuote(lit) by {
      forall j | 0 <= j < |lit|
        ensures lit[j] != '"'
      {
        if j > 0 {
          assert lit[j] == d[j - 1];
        }
      }
    }
    BadValueDropped(key, lit);
  }

  /** The round trip: the list the editor writes decodes to that same list,
      in its order and with its duplicates, whenever every key and text is
      free of double quotes, brackets, newlines and `};` and every integer is
      not negative. */
  lemma DecodeEncode(vs: seq<Entry>)
    requires AllSafe(vs)
    ensures Decode(Encode(vs)) == vs
  {
    forall k | 0 <= k < |vs|
      ensures GoodPiece(EncodeEntry(vs[k]))
    {
      EntryPiece(vs[k]);
    }
    if vs != [] {
      JoinedEnds(EncodeEntry, vs);
    }
    WrapperOfText(ItemsText(vs));
    TopLevelOfJoined(EncodeEntry, vs);
    var items := Map(EncodeEntry, vs);
    forall k | 0 <= k < |vs|
      ensures DecodeItem(items[k]) == [vs[k]]
    {
      DecodeEntryText(vs[k]);
    }
    FlatMapEach(DecodeItem, items, vs);
  }
}
