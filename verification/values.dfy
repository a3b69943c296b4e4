/** The decoded variables table: typed values, entries, the text the tree view
    shows for a value, and the replace-by-key edit the save handlers perform. */
module Values {
  import opened Wrappers
  import opened PyStr

  /** A decoded value: a Python `bool`, `int` or `str`. */
  datatype Value = Bool(b: bool) | Int(i: int) | Text(s: string)

  /** One `(key, value)` tuple of the editor's list. */
  datatype Entry = Entry(key: string, value: Value)

  /** The text the tree view shows for a value (`populate_tree`). An integer's
      text parses back to it, which is what the integer editor relies on when
      it starts from the shown text. */
  function Display(v: Value): (r: string)
    ensures v.Bool? ==> (r == "true" || r == "false") && (r == "true" <==> v.b)
    ensures v.Int? ==> PyInt(r) == Some(v.i) && IsDecimal(r) && (r[0] == '-' <==> v.i < 0)
    ensures v.Text? ==> r == v.s
  {
    match v
    case Bool(b) => if b then "true" else "false"
    case Int(i) => PyIntOfIntToString(i); IntToString(i)
    case Text(s) => s
  }

  /** The position of the first entry whose key is `key`, where the save
      handlers' `for i, (k, v) in enumerate(...)` loops stop. */
  function FirstIndex(vs: seq<Entry>, key: string): (r: Option<nat>)
    ensures r.Some? ==> r.value < |vs| && vs[r.value].key == key
    ensures forall j :: 0 <= j < |vs| && (r.None? || j < r.value) ==> vs[j].key != key
  {
    if vs == [] then None
    else if vs[0].key == key then Some(0)
    else match FirstIndex(vs[1..], key)
      case None => None
      case Some(j) => Some(j + 1)
  }

  /** The list after the first entry with `key` has been given the value `v`. */
  function Replace(vs: seq<Entry>, key: string, v: Value): (r: seq<Entry>)
    ensures |r| == |vs|
    ensures FirstIndex(vs, key).None? ==> r == vs
  {
    match FirstIndex(vs, key)
    case None => vs
    case Some(i) => vs[i := Entry(key, v)]
  }

  /** Replacing by key keeps the list's length, every key and its position, and
      every other entry; only the first entry with the key changes, and it now
      holds the new value. An absent key leaves the list as it was. */
  lemma ReplaceSpec(vs: seq<Entry>, key: string, v: Value)
    ensures |Replace(vs, key, v)| == |vs|
    ensures forall j :: 0 <= j < |vs| ==> Replace(vs, key, v)[j].key == vs[j].key
    ensures forall j :: 0 <= j < |vs| && FirstIndex(vs, key) != Some(j) ==> Replace(vs, key, v)[j] == vs[j]
    ensures FirstIndex(vs, key).Some? ==> Replace(vs, key, v)[FirstIndex(vs, key).value].value == v
    ensures FirstIndex(vs, key).None? ==> Replace(vs, key, v) == vs
    ensures forall k :: FirstIndex(Replace(vs, key, v), k) == FirstIndex(vs, k)
  {
    var r := Replace(vs, key, v);
    forall k
      ensures FirstIndex(r, k) == FirstIndex(vs, k)
    {
      SameKeysSameFirstIndex(r, vs, k);
    }
  }

  /** The first position of a key depends on the keys alone. */
  lemma SameKeysSameFirstIndex(a: seq<Entry>, b: seq<Entry>, key: string)
    requires |a| == |b|
    requires forall j :: 0 <= j < |a| ==> a[j].key == b[j].key
    ensures FirstIndex(a, key) == FirstIndex(b, key)
  {
    var ra, rb := FirstIndex(a, key), FirstIndex(b, key);
    if ra.Some? && rb.Some? {
      assert !(ra.value < rb.value) && !(rb.value < ra.value);
    }
  }
}
