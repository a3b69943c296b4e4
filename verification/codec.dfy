/** The `variables` string of a savegame: `Variable={` followed by comma
    separated `["key"]=value` items and `};`. Decoding follows
    `parse_variables`; encoding follows the rebuild in `save_savegame`. */
module Codec {
  import opened Wrappers
  import opened PyStr
  import opened Values
  import opened Scanner
  import opened ItemPattern

  const Opening: string := "Variable={"
  const Closing: string := "};"

  /** `re.search(r'Variable=\{(.*?)\};', s, re.DOTALL)` and its group: the text
      between the first `Variable={` and the first `};` after it. A later
      `Variable={` cannot help when the first has no `};` after it, since any
      `};` after the later one is after the first one too. */
  function WrapperBody(s: string): (r: Option<string>)
    ensures r.Some? ==> exists p: nat ::
      (&& p + 10 + |r.value| + 2 <= |s|
       && OccursAt(s, Opening, p) && s[p + 10..p + 10 + |r.value|] == r.value
       && OccursAt(s, Closing, p + 10 + |r.value|))
  {
    match Find(s, Opening, 0)
    case None => None
    case Some(p) =>
      match Find(s, Closing, p + 10)
      case None => None
      case Some(q) => Some(s[p + 10..q])
  }

  /** A text with no `Variable={` in it, or with no `};` after its first one,
      has no wrapper. */
  lemma NoWrapper(s: string)
    requires forall p: nat :: OccursAt(s, Opening, p) ==> forall q: nat :: q >= p + 10 ==> !OccursAt(s, Closing, q)
    ensures WrapperBody(s).None?
  {
  }

  /** The body found is exactly what lies between the first `Variable={` and
      the first `};` after it; in particular it holds no `};` itself. */
  lemma WrapperBodyFirst(s: string, p: nat, q: nat)
    requires OccursAt(s, Opening, p) && forall j: nat :: j < p ==> !OccursAt(s, Opening, j)
    requires q >= p + 10 && OccursAt(s, Closing, q) && forall j: nat :: p + 10 <= j < q ==> !OccursAt(s, Closing, j)
    ensures WrapperBody(s) == Some(s[p + 10..q])
  {
    assert Find(s, Opening, 0) == Some(p);
    assert Find(s, Closing, p + 10) == Some(q);
  }

  /** The value a literal stands for, tested in the order `parse_variables`
      tests it: quoted text, `true`/`false` in any case, an integer, and
      otherwise the literal itself as text. `val_str[1:-1]` of a one-character
      literal is empty. */
  function Classify(lit: string): (r: Value)
    ensures |lit| >= 2 && lit[0] == '"' && lit[|lit| - 1] == '"' ==> r == Text(lit[1..|lit| - 1])
    ensures r.Bool? ==> Lower(lit) == (if r.b then "true" else "false")
    ensures r.Int? ==> PyInt(lit) == Some(r.i) && Lower(lit) != "true" && Lower(lit) != "false"
    ensures r.Text? && !(|lit| > 0 && lit[0] == '"' && lit[|lit| - 1] == '"') ==>
      r.s == lit && PyInt(lit).None? && Lower(lit) != "true" && Lower(lit) != "false"
  {
    if |lit| > 0 && lit[0] == '"' && lit[|lit| - 1] == '"' then
      Text(if |lit| >= 2 then lit[1..|lit| - 1] else "")
    else if Lower(lit) == "true" then Bool(true)
    else if Lower(lit) == "false" then Bool(false)
    else match PyInt(lit)
      case Some(i) => Int(i)
      case None => Text(lit)
  }

  /** What a matched literal decodes to. A quoted literal is text with its
      quotes removed; a `\w+` literal is a boolean when it spells `true` or
      `false` in any mix of case, an integer when `int` accepts it, and text
      otherwise. */
  lemma ClassifyToken(lit: string)
    requires IsValueToken(lit)
    ensures IsQuotedRun(lit) ==> Classify(lit) == Text(lit[1..|lit| - 1])
    ensures IsWord(lit) ==> (Classify(lit) == Bool(true) <==> Lower(lit) == "true")
    ensures IsWord(lit) ==> (Classify(lit) == Bool(false) <==> Lower(lit) == "false")
    ensures IsWord(lit) && Lower(lit) != "true" && Lower(lit) != "false" ==>
      (Classify(lit).Int? <==> PyInt(lit).Some?) && (PyInt(lit).Some? ==> Classify(lit) == Int(PyInt(lit).value))
    ensures IsWord(lit) && Classify(lit).Text? ==> Classify(lit) == Text(lit)
  {
    if IsWord(lit) {
      assert lit[0] != '"';
    }
  }

  /** The entries one item contributes: none for an empty item or one the
      item pattern rejects, otherwise its key and classified value. */
  function DecodeItem(item: string): (r: seq<Entry>)
    ensures |r| <= 1
    ensures r != [] <==> item != [] && MatchItem(item).Some?
    ensures r != [] ==> r == [Entry(MatchItem(item).value.key, Classify(MatchItem(item).value.literal))]
    ensures r != [] ==> NoNewline(r[0].key)
  {
    if item == [] then []
    else match MatchItem(item)
      case None => []
      case Some(m) => MatchItemSpec(item); [Entry(m.key, Classify(m.literal))]
  }

  /** The results of `f` on each of `xs`, concatenated in order. */
  function FlatMap<T, U>(f: T -> seq<U>, xs: seq<T>): seq<U> {
    if xs == [] then [] else FlatMap(f, xs[..|xs| - 1]) + f(xs[|xs| - 1])
  }

  /** The entries of the items, in the items' order, duplicates kept: a single
      item gives what it decodes to, and `DecodeItemsAppend` puts lists of
      items together. No key holds a newline. */
  function DecodeItems(items: seq<string>): (r: seq<Entry>)
    ensures |r| <= |items|
    ensures items == [] ==> r == []
    ensures |items| == 1 ==> r == DecodeItem(items[0])
    ensures forall k :: 0 <= k < |r| ==> NoNewline(r[k].key)
  {
    DecodeItemsLength(items);
    DecodeItemsKeys(items);
    assert |items| == 1 ==> items[..0] == [];
    FlatMap(DecodeItem, items)
  }

  /** The keys of the entries of the items hold no newline. */
  lemma {:induction false} DecodeItemsKeys(items: seq<string>)
    ensures forall k :: 0 <= k < |FlatMap(DecodeItem, items)| ==> NoNewline(FlatMap(DecodeItem, items)[k].key)
  {
    if items != [] {
      DecodeItemsKeys(items[..|items| - 1]);
    }
  }

  /** Each item contributes at most one entry. */
  lemma {:induction false} DecodeItemsLength(items: seq<string>)
    ensures |FlatMap(DecodeItem, items)| <= |items|
  {
    if items != [] {
      DecodeItemsLength(items[..|items| - 1]);
    }
  }

  /** `parse_variables` as a function of its argument: nothing without the
      wrapper, and no key it returns holds a newline. */
  function Decode(s: string): (r: seq<Entry>)
    ensures WrapperBody(s).None? ==> r == []
    ensures forall k :: 0 <= k < |r| ==> NoNewline(r[k].key)
  {
    match WrapperBody(s)
    case None => []
    case Some(body) => DecodeItems(TopLevelItems(Strip(body)))
  }

  /** `parse_variables` (lines 127-187): split the stripped body at top-level
      commas, then match and classify each item in turn. */
  method ParseVariables(variablesStr: string) returns (parsed: seq<Entry>)
    ensures parsed == Decode(variablesStr)
  {
    var body := WrapperBody(variablesStr);
    if body.None? {
      return [];
    }
    var inner := Strip(body.value);
    var items := SplitTopLevel(inner);
    parsed := [];
    for n := 0 to |items|
      invariant parsed == FlatMap(DecodeItem, items[..n])
    {
      FlatMapStep(DecodeItem, items, n);
      var item := items[n];
      if item == [] {
        continue;
      }
      var m := MatchItem(item);
      if m.Some? {
        parsed := parsed + [Entry(m.value.key, Classify(m.value.literal))];
      }
    }
    assert items[..|items|] == items;
  }

  /** One more element adds its results at the end. */
  lemma FlatMapStep<T, U>(f: T -> seq<U>, xs: seq<T>, n: nat)
    requires n < |xs|
    ensures FlatMap(f, xs[..n + 1]) == FlatMap(f, xs[..n]) + f(xs[n])
  {
    assert xs[..n + 1][..n] == xs[..n];
  }

  /** Results of a list followed by more are the results of the first list
      followed by the results of the rest. */
  lemma {:induction false} FlatMapAppend<T, U>(f: T -> seq<U>, a: seq<T>, b: seq<T>)
    ensures FlatMap(f, a + b) == FlatMap(f, a) + FlatMap(f, b)
    decreases |b|
  {
    if b == [] {
      assert a + b == a;
    } else {
      var b' := b[..|b| - 1];
      assert (a + b)[..|a + b| - 1] == a + b';
      FlatMapAppend(f, a, b');
    }
  }

  /** When each element gives exactly one result, the results follow the
      elements one to one. */
  lemma {:induction false} FlatMapEach<T, U>(f: T -> seq<U>, xs: seq<T>, ys: seq<U>)
    requires |xs| == |ys| && forall k :: 0 <= k < |xs| ==> f(xs[k]) == [ys[k]]
    ensures FlatMap(f, xs) == ys
  {
    if xs != [] {
      var m := |xs| - 1;
      FlatMapEach(f, xs[..m], ys[..m]);
      assert ys == ys[..m] + [ys[m]];
    }
  }

  /** Decoding keeps the items' order and every duplicate: the entries of a
      list of items followed by more items are the entries of the first list
      followed by the entries of the rest. */
  lemma DecodeItemsAppend(a: seq<string>, b: seq<string>)
    ensures DecodeItems(a + b) == DecodeItems(a) + DecodeItems(b)
  {
    FlatMapAppend(DecodeItem, a, b);
  }

  /** The text `save_savegame` writes for a value: `true`/`false`, the decimal
      form of an integer, and text in double quotes with nothing escaped. */
  function Literal(v: Value): (r: string)
    ensures v.Bool? ==> r == (if v.b then "true" else "false")
    ensures v.Int? ==> PyInt(r) == Some(v.i) && IsDecimal(r) && (r[0] == '-' <==> v.i < 0)
    ensures v.Text? ==> |r| == |v.s| + 2 && r[0] == '"' && r[|r| - 1] == '"' && r[1..|r| - 1] == v.s
  {
    match v
    case Bool(b) => if b then "true" else "false"
    case Int(i) => PyIntOfIntToString(i); IntToString(i)
    case Text(s) => "\"" + s + "\""
  }

  /** One item as `save_savegame` writes it: `["`, the key, `"]=` and the
      literal, with nothing escaped. */
  function EncodeEntry(e: Entry): string {
    ItemText(e.key, Literal(e.value))
  }

  /** The results of `f` on each of `xs`, in order, with `sep` between two
      neighbours. */
  function Joined<T>(f: T -> string, sep: string, xs: seq<T>): string {
    if xs == [] then ""
    else if |xs| == 1 then f(xs[0])
    else Joined(f, sep, xs[..|xs| - 1]) + sep + f(xs[|xs| - 1])
  }

  /** The items of `save_savegame`, separated by `", "`: empty exactly for
      an empty list, since every item is written with its brackets. */
  function ItemsText(vs: seq<Entry>): (r: string)
    ensures r == [] <==> vs == []
  {
    Joined(EncodeEntry, ", ", vs)
  }

  /** The `variables` string `save_savegame` rebuilds from the list. */
  function Encode(vs: seq<Entry>): (r: string)
    ensures |r| >= 12 && r[..10] == Opening && r[|r| - 2..] == Closing
  {
    Opening + ItemsText(vs) + Closing
  }

  /** An empty list is written as `Variable={};`. */
  lemma EncodeEmpty()
    ensures Encode([]) == "Variable={};"
  {
  }
}
