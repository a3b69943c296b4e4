/** The item pattern of `parse_variables`, `\["(.*?)"\]\s*=\s*(".*?"|\w+)`, as
    `re.match` applies it to one item: anchored at the start of the item, with
    whatever follows the value ignored. Without `re.DOTALL` neither `.*?`
    crosses a newline. */
module ItemPattern {
  import opened Wrappers
  import opened PyStr

  /** The two groups of a successful match: the key and the value literal. */
  datatype ItemMatch = ItemMatch(key: string, literal: string)

  predicate NoNewline(s: string) {
    forall i :: 0 <= i < |s| ==> s[i] != '\n'
  }

  predicate NoQuote(s: string) {
    forall i :: 0 <= i < |s| ==> s[i] != '"'
  }

  /** A run that `\w+` matches. */
  predicate IsWord(s: string) {
    |s| > 0 && forall i :: 0 <= i < |s| ==> IsWordChar(s[i])
  }

  /** A run that `".*?"` matches on its own: a quote at each end, and neither
      a quote nor a newline between them. */
  predicate IsQuotedRun(s: string) {
    && |s| >= 2 && s[0] == '"' && s[|s| - 1] == '"'
    && forall i :: 0 < i < |s| - 1 ==> s[i] != '"' && s[i] != '\n'
  }

  /** What the value group can capture. */
  predicate IsValueToken(s: string) {
    IsQuotedRun(s) || IsWord(s)
  }

  /** The end of the longest `\w` run that starts at `i`. */
  function WordEnd(s: string, i: nat): (r: nat)
    requires i <= |s|
    ensures i <= r <= |s| && (r == |s| || !IsWordChar(s[r]))
    decreases |s| - i
  {
    if i < |s| && IsWordChar(s[i]) then WordEnd(s, i + 1) else i
  }

  /** What `WordEnd` passes over is word characters only. */
  lemma {:induction false} WordEndSkipsWord(s: string, i: nat)
    requires i <= |s|
    ensures forall j :: i <= j < WordEnd(s, i) ==> IsWordChar(s[j])
    decreases |s| - i
  {
    if i < |s| && IsWordChar(s[i]) {
      WordEndSkipsWord(s, i + 1);
    }
  }

  /** The first position at or after `i` that holds a quote or a newline, or
      `|s|`: where the lazy `.*?` of a quoted value stops. */
  function QuoteEnd(s: string, i: nat): (r: nat)
    requires i <= |s|
    ensures i <= r <= |s| && (r < |s| ==> s[r] == '"' || s[r] == '\n')
    decreases |s| - i
  {
    if i < |s| && s[i] != '"' && s[i] != '\n' then QuoteEnd(s, i + 1) else i
  }

  /** What `QuoteEnd` passes over holds neither a quote nor a newline. */
  lemma {:induction false} QuoteEndSkipsText(s: string, i: nat)
    requires i <= |s|
    ensures forall j :: i <= j < QuoteEnd(s, i) ==> s[j] != '"' && s[j] != '\n'
    decreases |s| - i
  {
    if i < |s| && s[i] != '"' && s[i] != '\n' {
      QuoteEndSkipsText(s, i + 1);
    }
  }

  /** `WordEnd` stops at the first character that is not a word character. */
  lemma {:induction false} WordEndAt(s: string, i: nat, stop: nat)
    requires i <= stop <= |s| && forall j :: i <= j < stop ==> IsWordChar(s[j])
    requires stop == |s| || !IsWordChar(s[stop])
    ensures WordEnd(s, i) == stop
    decreases stop - i
  {
    if i < stop {
      WordEndAt(s, i + 1, stop);
    }
  }

  /** `QuoteEnd` stops at the first quote or newline. */
  lemma {:induction false} QuoteEndAt(s: string, i: nat, stop: nat)
    requires i <= stop < |s| && forall j :: i <= j < stop ==> s[j] != '"' && s[j] != '\n'
    requires s[stop] == '"' || s[stop] == '\n'
    ensures QuoteEnd(s, i) == stop
    decreases stop - i
  {
    if i < stop {
      QuoteEndAt(s, i + 1, stop);
    }
  }

  /** The value group `(".*?"|\w+)` tried at position `i`: where the value
      ends. A value that opens with a quote but has no closing quote before a
      newline does not match, and `\w+` cannot start at a quote either. A word
      value takes the whole run of word characters. */
  function MatchValue(s: string, i: nat): (r: Option<nat>)
    requires i <= |s|
    ensures r.Some? ==> i < r.value <= |s|
    ensures i == |s| || (s[i] != '"' && !IsWordChar(s[i])) ==> r.None?
    ensures r.Some? && s[i] != '"' ==> r.value == |s| || !IsWordChar(s[r.value])
    ensures i < |s| && s[i] == '"' && r.None? ==> QuoteEnd(s, i + 1) == |s| || s[QuoteEnd(s, i + 1)] == '\n'
    ensures i < |s| && s[i] == '"' && (QuoteEnd(s, i + 1) == |s| || s[QuoteEnd(s, i + 1)] == '\n') ==> r.None?
    ensures i < |s| && IsWordChar(s[i]) ==> r.Some?
  {
    if i < |s| && s[i] == '"' then
      var e := QuoteEnd(s, i + 1);
      if e < |s| && s[e] == '"' then Some(e + 1) else None
    else
      var e := WordEnd(s, i);
      if e > i then Some(e) else None
  }

  /** What the value group captures is a value token, quoted exactly when it
      opens with a quote. */
  lemma MatchValueToken(s: string, i: nat)
    requires i <= |s| && MatchValue(s, i).Some?
    ensures IsValueToken(s[i..MatchValue(s, i).value])
    ensures s[i] == '"' <==> IsQuotedRun(s[i..MatchValue(s, i).value])
  {
    var t := s[i..MatchValue(s, i).value];
    assert t[0] == s[i];
    if s[i] == '"' {
      QuoteEndSkipsText(s, i + 1);
      forall j | 0 < j < |t| - 1
        ensures t[j] != '"' && t[j] != '\n'
      {
        assert t[j] == s[i + j];
      }
    } else {
      WordEndSkipsWord(s, i);
      forall j | 0 <= j < |t|
        ensures IsWordChar(t[j])
      {
        assert t[j] == s[i + j];
      }
    }
  }

  /** The span of a value: where it starts and where it ends. */
  datatype Span = Span(lo: nat, hi: nat)

  /** The end of the run of whitespace that starts at `i`. */
  function SpaceEnd(s: string, i: nat): (r: nat)
    requires i <= |s|
    ensures i <= r <= |s| && (r == |s| || !IsSpace(s[r]))
    ensures forall j :: i <= j < r ==> IsSpace(s[j])
    decreases |s| - i
  {
    if i < |s| && IsSpace(s[i]) then SpaceEnd(s, i + 1) else i
  }

  /** `\s*=\s*` followed by the value, tried at position `p`: whitespace is
      passed over one character at a time up to the `=`. It matches exactly
      when the whitespace from `p` ends at an `=` and a value starts where the
      whitespace after the `=` ends; the value's span is returned. */
  function MatchAssign(s: string, p: nat): (r: Option<Span>)
    requires p <= |s|
    ensures r.Some? ==> p < r.value.lo < r.value.hi <= |s| && MatchValue(s, r.value.lo) == Some(r.value.hi)
    decreases |s| - p
  {
    if p < |s| && IsSpace(s[p]) then MatchAssign(s, p + 1)
    else if p < |s| && s[p] == '=' then MatchValueAfterSpace(s, p + 1)
    else None
  }

  /** `\s*` followed by the value, tried at position `v`: the value must
      start where the whitespace ends. */
  function MatchValueAfterSpace(s: string, v: nat): (r: Option<Span>)
    requires v <= |s|
    ensures r.Some? ==> v <= r.value.lo < r.value.hi <= |s| && MatchValue(s, r.value.lo) == Some(r.value.hi)
    decreases |s| - v
  {
    if v < |s| && IsSpace(s[v]) then MatchValueAfterSpace(s, v + 1)
    else match MatchValue(s, v)
      case Some(e) => Some(Span(v, e))
      case None => None
  }

  /** `\s*` and the value: the value starts where the whitespace ends, and
      matches there exactly when this does. */
  lemma {:induction false} ValueAfterSpaceShape(s: string, v: nat)
    requires v <= |s|
    ensures MatchValueAfterSpace(s, v).Some? <==> MatchValue(s, SpaceEnd(s, v)).Some?
    ensures MatchValueAfterSpace(s, v).Some? ==> MatchValueAfterSpace(s, v).value.lo == SpaceEnd(s, v)
    decreases |s| - v
  {
    if v < |s| && IsSpace(s[v]) {
      ValueAfterSpaceShape(s, v + 1);
    }
  }

  /** `\s*=\s*` and the value: it matches exactly when the whitespace from
      `p` ends at an `=` and a value starts where the whitespace after the `=`
      ends; the span returned is that value's. */
  lemma {:induction false} AssignShape(s: string, p: nat)
    requires p <= |s|
    ensures var eq := SpaceEnd(s, p);
      MatchAssign(s, p).Some? <==> eq < |s| && s[eq] == '=' && MatchValue(s, SpaceEnd(s, eq + 1)).Some?
    ensures MatchAssign(s, p).Some? ==> var eq := SpaceEnd(s, p);
      eq < MatchAssign(s, p).value.lo && s[eq] == '=' && MatchAssign(s, p).value.lo == SpaceEnd(s, eq + 1)
    decreases |s| - p
  {
    if p < |s| && IsSpace(s[p]) {
      AssignShape(s, p + 1);
    } else if p < |s| && s[p] == '=' {
      ValueAfterSpaceShape(s, p + 1);
    }
  }

  /** The pattern after a key of length `k`: `"]`, `\s*`, `=`, `\s*` and the
      value, whose span it returns. Each `\s*` takes all the whitespace there
      is, since neither `=` nor a value can start with whitespace. */
  function MatchAfterKey(s: string, k: nat): (r: Option<Span>)
    requires 2 + k <= |s|
    ensures r.Some? ==> 4 + k <= |s| && s[2 + k] == '"' && s[3 + k] == ']'
    ensures r.Some? ==> 4 + k < r.value.lo < r.value.hi <= |s| && MatchValue(s, r.value.lo) == Some(r.value.hi)
  {
    if 4 + k <= |s| && s[2 + k] == '"' && s[3 + k] == ']' then MatchAssign(s, 4 + k) else None
  }

  /** Between `"]` and the value lie whitespace, `=` and whitespace, each run
      of whitespace taken whole; and the pattern after the key matches exactly
      when the text there is shaped so. */
  lemma MatchAfterKeyShape(s: string, k: nat)
    requires 2 + k <= |s|
    ensures var r := MatchAfterKey(s, k);
      r.Some? <==> && 4 + k <= |s| && s[2 + k] == '"' && s[3 + k] == ']'
                   && var eq := SpaceEnd(s, 4 + k);
                   && eq < |s| && s[eq] == '=' && MatchValue(s, SpaceEnd(s, eq + 1)).Some?
    ensures var r := MatchAfterKey(s, k);
      r.Some? ==> var eq := SpaceEnd(s, 4 + k);
        && eq < r.value.lo && s[eq] == '=' && r.value.lo == SpaceEnd(s, eq + 1)
        && (forall j :: 4 + k <= j < eq ==> IsSpace(s[j]))
        && (forall j :: eq + 1 <= j < r.value.lo ==> IsSpace(s[j]))
  {
    if 4 + k <= |s| {
      AssignShape(s, 4 + k);
    }
  }

  /** The lazy key group `(.*?)`, trying key lengths from `k` upwards: the
      length of the shortest key after which the rest of the pattern matches.
      The key cannot hold a newline. */
  function MatchKeyFrom(s: string, k: nat): (r: Option<nat>)
    requires 2 + k <= |s|
    ensures r.Some? ==> k <= r.value && 2 + r.value <= |s| && MatchAfterKey(s, r.value).Some?
    ensures r.Some? ==> forall j :: 2 + k <= j < 2 + r.value ==> s[j] != '\n'
    ensures r.Some? ==> forall j :: k <= j < r.value ==> MatchAfterKey(s, j).None?
    ensures r.None? ==> forall j :: k <= j && 2 + j <= |s| && (forall i :: 2 + k <= i < 2 + j ==> s[i] != '\n') ==>
      MatchAfterKey(s, j).None?
    decreases |s| - k
  {
    if MatchAfterKey(s, k).Some? then Some(k)
    else if 2 + k < |s| && s[2 + k] != '\n' then MatchKeyFrom(s, k + 1)
    else None
  }

  /** `re.match(r'\["(.*?)"\]\s*=\s*(".*?"|\w+)', item)`: the key and the
      value literal, the key being the shortest that lets the rest match. */
  function MatchItem(s: string): (r: Option<ItemMatch>)
    ensures r.Some? ==> |s| >= 2 && s[0] == '[' && s[1] == '"'
    ensures !(|s| >= 2 && s[0] == '[' && s[1] == '"') ==> r.None?
  {
    if |s| >= 2 && s[0] == '[' && s[1] == '"' then
      match MatchKeyFrom(s, 0)
      case Some(n) =>
        var m := MatchAfterKey(s, n).value;
        Some(ItemMatch(s[2..2 + n], s[m.lo..m.hi]))
      case None => None
    else None
  }

  /** An item that opens with `["` matches as soon as some key with no
      newline lets the rest of the pattern match; the key found is at most
      that long. */
  lemma MatchItemFound(s: string, n: nat)
    requires |s| >= 2 && s[0] == '[' && s[1] == '"' && 2 + n <= |s|
    requires forall i :: 2 <= i < 2 + n ==> s[i] != '\n'
    requires MatchAfterKey(s, n).Some?
    ensures MatchItem(s).Some? && |MatchItem(s).value.key| <= n
  {
    var r := MatchKeyFrom(s, 0);
    assert r.Some?;
    assert r.value <= n;
  }

  /** What a match captures: a key with no newline right after `["`, the
      shortest after which the rest of the pattern matches; then `"]`,
      whitespace, `=` and whitespace, and a value token right after them, a
      word value running to the end of its run of word characters. */
  lemma MatchItemSpec(s: string)
    requires MatchItem(s).Some?
    ensures var r := MatchItem(s).value;
      && 4 + |r.key| <= |s| && r.key == s[2..2 + |r.key|] && NoNewline(r.key)
      && s[2 + |r.key|] == '"' && s[3 + |r.key|] == ']'
      && MatchAfterKey(s, |r.key|).Some?
      && r.literal == s[MatchAfterKey(s, |r.key|).value.lo..MatchAfterKey(s, |r.key|).value.hi]
      && IsValueToken(r.literal)
      && forall j :: 0 <= j < |r.key| ==> MatchAfterKey(s, j).None?
    ensures var r := MatchItem(s).value; var m := MatchAfterKey(s, |r.key|).value;
      var eq := SpaceEnd(s, 4 + |r.key|);
      && eq < m.lo && s[eq] == '=' && m.lo == SpaceEnd(s, eq + 1)
      && (forall j :: 4 + |r.key| <= j < eq ==> IsSpace(s[j]))
      && (forall j :: eq + 1 <= j < m.lo ==> IsSpace(s[j]))
      && (r.literal[0] != '"' ==> m.hi == |s| || !IsWordChar(s[m.hi]))
  {
    var n := MatchKeyFrom(s, 0).value;
    var m := MatchAfterKey(s, n).value;
    MatchAfterKeyShape(s, n);
    MatchValueToken(s, m.lo);
    var key := s[2..2 + n];
    assert forall j :: 0 <= j < |key| ==> key[j] == s[2 + j];
    assert s[m.lo..m.hi][0] == s[m.lo];
  }

  /** The text of one item as the encoder writes it. */
  function ItemText(key: string, literal: string): string {
    "[\"" + key + "\"]=" + literal
  }

  /** A value token at the end of the text is matched whole. */
  lemma ValueOfToken(s: string, i: nat)
    requires i <= |s| && IsValueToken(s[i..])
    ensures MatchValue(s, i) == Some(|s|)
  {
    var t := s[i..];
    assert s[i] == t[0];
    if IsQuotedRun(t) {
      forall j | i + 1 <= j < |s| - 1
        ensures s[j] != '"' && s[j] != '\n'
      {
        assert s[j] == t[j - i];
      }
      assert s[|s| - 1] == t[|t| - 1];
      QuoteEndAt(s, i + 1, |s| - 1);
    } else {
      forall j | i <= j < |s|
        ensures IsWordChar(s[j])
      {
        assert s[j] == t[j - i];
      }
      WordEndAt(s, i, |s|);
    }
  }

  /** While the key text has no quote and no newline, each shorter key fails
      and the lazy search moves on. */
  lemma {:induction false} SkipKeyText(s: string, n: nat, k: nat)
    requires 2 + n <= |s| && k <= n
    requires forall j :: 2 + k <= j < 2 + n ==> s[j] != '"' && s[j] != '\n'
    ensures MatchKeyFrom(s, k) == MatchKeyFrom(s, n)
    decreases n - k
  {
    if k < n {
      SkipKeyText(s, n, k + 1);
      assert MatchAfterKey(s, k).None?;
    }
  }

  /** Through text with no quote the key search finds nothing, and a newline
      ends it. */
  lemma {:induction false} SkipToEnd(s: string, k: nat, stop: nat)
    requires 2 + k <= stop <= |s| && (stop < |s| ==> s[stop] == '\n')
    requires forall j :: 2 + k <= j < stop ==> s[j] != '"'
    ensures MatchKeyFrom(s, k).None?
    decreases stop - k
  {
    if 2 + k < stop {
      SkipToEnd(s, k + 1, stop);
    }
  }

  /** The layout the encoder writes: `["`, a key with no quote and no newline
      of length `n`, `"]=`, and a value token up to the end. It matches with that
      key and that literal. */
  lemma MatchLaidOut(s: string, n: nat)
    requires 5 + n <= |s| && s[0] == '[' && s[1] == '"'
    requires forall j :: 2 <= j < 2 + n ==> s[j] != '"' && s[j] != '\n'
    requires s[2 + n] == '"' && s[3 + n] == ']' && s[4 + n] == '='
    requires IsValueToken(s[5 + n..])
    ensures MatchItem(s) == Some(ItemMatch(s[2..2 + n], s[5 + n..]))
  {
    assert s[5 + n..|s|] == s[5 + n..];
    SkipKeyText(s, n, 0);
    AfterKeyLaidOut(s, n);
    assert MatchKeyFrom(s, 0) == Some(n);
  }

  /** After the key, `"]=` and a value token up to the end match with that
      value. */
  lemma AfterKeyLaidOut(s: string, n: nat)
    requires 5 + n <= |s| && s[2 + n] == '"' && s[3 + n] == ']' && s[4 + n] == '='
    requires IsValueToken(s[5 + n..])
    ensures MatchAfterKey(s, n) == Some(Span(5 + n, |s|))
  {
    assert s[5 + n] == s[5 + n..][0];
    ValueOfToken(s, 5 + n);
    assert MatchValueAfterSpace(s, 5 + n) == Some(Span(5 + n, |s|));
  }

  /** The encoder's item text matches with the key and literal it was built
      from, when the key holds no quote and no newline. */
  lemma MatchItemText(key: string, literal: string)
    requires NoQuote(key) && NoNewline(key) && IsValueToken(literal)
    ensures MatchItem(ItemText(key, literal)) == Some(ItemMatch(key, literal))
  {
    var s := ItemText(key, literal);
    var n := |key|;
    KeyLayout(s, key);
    assert s[0] == s[..2][0] && s[1] == s[..2][1];
    assert s[2 + n] == s[2 + n..5 + n][0] && s[3 + n] == s[2 + n..5 + n][1] && s[4 + n] == s[2 + n..5 + n][2];
    MatchLaidOut(s, n);
  }

  /** The characters of a key with no quote and no newline, seen in the text
      that holds it from position 2. */
  lemma KeyLayout(s: string, key: string)
    requires 2 + |key| <= |s| && s[2..2 + |key|] == key && NoQuote(key) && NoNewline(key)
    ensures forall j :: 2 <= j < 2 + |key| ==> s[j] != '"' && s[j] != '\n'
  {
    forall j | 2 <= j < 2 + |key|
      ensures s[j] != '"' && s[j] != '\n'
    {
      assert s[j] == key[j - 2];
    }
  }

  /** An item whose value starts with neither a quote, a `\w` character nor
      whitespace, and holds no quote, is dropped: this covers negative
      integers such as `-42`, bracketed values and an empty value. */
  lemma BadValueDropped(key: string, value: string)
    requires NoQuote(key) && NoNewline(key) && NoQuote(value)
    requires value == [] || (!IsWordChar(value[0]) && !IsSpace(value[0]))
    ensures MatchItem(ItemText(key, value)).None?
  {
    var s := ItemText(key, value);
    var n := |key|;
    KeyLayout(s, key);
    assert s[0] == s[..2][0] && s[1] == s[..2][1];
    assert s[2 + n] == s[2 + n..5 + n][0] && s[3 + n] == s[2 + n..5 + n][1] && s[4 + n] == s[2 + n..5 + n][2];
    forall j | 5 + n <= j < |s|
      ensures s[j] != '"'
    {
      assert s[j] == s[5 + n..][j - (5 + n)];
    }
    if value != [] {
      assert s[5 + n] == s[5 + n..][0];
    }
    BadLaidOut(s, n);
  }

  /** The layout of `BadValueDropped`, on the text alone. */
  lemma BadLaidOut(s: string, n: nat)
    requires 5 + n <= |s| && s[0] == '[' && s[1] == '"'
    requires forall j :: 2 <= j < 2 + n ==> s[j] != '"' && s[j] != '\n'
    requires s[2 + n] == '"' && s[3 + n] == ']' && s[4 + n] == '='
    requires forall j :: 5 + n <= j < |s| ==> s[j] != '"'
    requires 5 + n == |s| || (!IsWordChar(s[5 + n]) && !IsSpace(s[5 + n]))
    ensures MatchItem(s).None?
  {
    SkipKeyText(s, n, 0);
    assert MatchValueAfterSpace(s, 5 + n).None?;
    assert MatchAfterKey(s, n).None?;
    SkipToEnd(s, n + 1, |s|);
  }

  /** An item whose quoted value spans a newline is dropped: the quoted
      alternative cannot cross the newline, and the key cannot either. The
      text before the newline holds no quote and does not open with `]`. */
  lemma NewlineValueDropped(key: string, a: string, b: string)
    requires NoQuote(key) && NoNewline(key)
    requires NoQuote(a) && NoNewline(a) && (a == [] || a[0] != ']')
    ensures MatchItem(ItemText(key, "\"" + a + "\n" + b + "\"")).None?
  {
    var v := "\"" + a + "\n" + b + "\"";
    QuotedNewlineLayout(a, b);
    var s := ItemText(key, v);
    var n := |key|;
    KeyLayout(s, key);
    assert s[0] == s[..2][0] && s[1] == s[..2][1];
    assert s[2 + n] == s[2 + n..5 + n][0] && s[3 + n] == s[2 + n..5 + n][1] && s[4 + n] == s[2 + n..5 + n][2];
    assert s[5 + n] == v[0];
    assert s[6 + n + |a|] == v[1 + |a|];
    forall j | 6 + n <= j < 6 + n + |a|
      ensures s[j] != '"' && s[j] != '\n'
    {
      assert s[j] == v[j - (5 + n)];
    }
    if a != [] {
      assert s[6 + n] == v[1];
    }
    NewlineLaidOut(s, n, 6 + n + |a|);
  }

  /** The characters of a quoted value with a newline after its first part. */
  lemma QuotedNewlineLayout(a: string, b: string)
    requires NoQuote(a) && NoNewline(a)
    ensures var v := "\"" + a + "\n" + b + "\"";
      && |v| == 3 + |a| + |b| && v[0] == '"' && v[1 + |a|] == '\n'
      && (forall j :: 1 <= j < 1 + |a| ==> v[j] != '"' && v[j] != '\n')
      && (a != [] ==> v[1] == a[0])
  {
    var v := "\"" + a + "\n" + b + "\"";
    forall j | 1 <= j < 1 + |a|
      ensures v[j] != '"' && v[j] != '\n'
    {
      assert v[j] == a[j - 1];
    }
  }

  /** The layout of `NewlineValueDropped`, on the text alone. */
  lemma NewlineLaidOut(s: string, n: nat, nl: nat)
    requires 6 + n <= nl < |s| && s[0] == '[' && s[1] == '"'
    requires forall j :: 2 <= j < 2 + n ==> s[j] != '"' && s[j] != '\n'
    requires s[2 + n] == '"' && s[3 + n] == ']' && s[4 + n] == '=' && s[5 + n] == '"'
    requires forall j :: 6 + n <= j < nl ==> s[j] != '"' && s[j] != '\n'
    requires s[nl] == '\n' && s[6 + n] != ']'
    ensures MatchItem(s).None?
  {
    SkipKeyText(s, n, 0);
    QuotedValueCutOff(s, n, nl);
    assert MatchKeyFrom(s, n) == MatchKeyFrom(s, n + 1);
    assert MatchKeyFrom(s, n + 1) == MatchKeyFrom(s, n + 2);
    assert MatchKeyFrom(s, n + 2) == MatchKeyFrom(s, n + 3);
    assert MatchKeyFrom(s, n + 3) == MatchKeyFrom(s, n + 4);
    SkipToEnd(s, n + 4, nl);
  }

  /** A quoted value cut off by a newline does not match after the key. */
  lemma QuotedValueCutOff(s: string, n: nat, nl: nat)
    requires 6 + n <= nl < |s|
    requires s[2 + n] == '"' && s[3 + n] == ']' && s[4 + n] == '=' && s[5 + n] == '"'
    requires forall j :: 6 + n <= j < nl ==> s[j] != '"' && s[j] != '\n'
    requires s[nl] == '\n'
    ensures MatchAfterKey(s, n).None?
  {
    QuoteEndAt(s, 6 + n, nl);
    assert MatchValueAfterSpace(s, 5 + n).None?;
  }
}
