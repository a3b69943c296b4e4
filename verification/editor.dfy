/** The save editor's table of variables: loading it from the `variables`
    string, the three in-place edits made from the tree view, the key filter,
    the text shown for each row, and the rebuild of the `variables` string. */
module Editor {
  import opened Wrappers
  import opened PyStr
  import opened Values
  import opened ItemPattern
  import opened Codec

  /** How an integer edit ends: the value is stored (or the key was absent),
      the input is rejected with "Invalid integer value", or `int()` raises
      inside the update loop and the handler stops there. */
  datatype IntEditOutcome = Updated | InvalidInteger | IntRaised

  /** The check `save_entry` makes before storing: after dropping every
      leading `-`, a non-empty run of digits. */
  predicate PassesIntCheck(t: string) {
    IsDigits(StripLeadingDashes(t))
  }

  /** The check, stated without `lstrip`: some leading `-` signs, then a
      non-empty run of digits. */
  lemma PassesIntCheckShape(t: string)
    ensures PassesIntCheck(t) <==>
      exists k :: 0 <= k < |t| && (forall i :: 0 <= i < k ==> t[i] == '-') && IsDigits(t[k..])
  {
    var d := StripLeadingDashes(t);
    var m := |t| - |d|;
    if PassesIntCheck(t) {
      assert IsDigits(t[m..]);
    }
    forall k | 0 <= k < |t| && (forall i :: 0 <= i < k ==> t[i] == '-') && IsDigits(t[k..])
      ensures PassesIntCheck(t)
    {
      assert t[k..][0] == t[k];
      assert m <= k;
      assert d == t[k..];
    }
  }

  /** The entries whose lower-cased key contains `needle`, in their order. */
  function Matching(vs: seq<Entry>, needle: string): (r: seq<Entry>)
    ensures |r| <= |vs|
    ensures forall k :: 0 <= k < |r| ==> Contains(Lower(r[k].key), needle)
  {
    if vs == [] then []
    else
      var last := vs[|vs| - 1];
      Matching(vs[..|vs| - 1], needle) + (if Contains(Lower(last.key), needle) then [last] else [])
  }

  class SaveGameEditor {
    /** The decoded variables, in file order. */
    var originalVars: seq<Entry>

    /** A new editor holds no variables. */
    constructor ()
      ensures originalVars == []
    {
      originalVars := [];
    }

    /** The table part of `load_savegame`: the `variables` string it is given,
        decoded into the table. */
    method LoadVariables(variablesStr: string)
      modifies this
      ensures originalVars == Decode(variablesStr)
    {
      originalVars := ParseVariables(variablesStr);
    }

    /** The update loop the three save handlers share: the first entry with
        `key` gets `v`, and the loop stops there. */
    method SetFirst(key: string, v: Value)
      modifies this
      ensures originalVars == Replace(old(originalVars), key, v)
    {
      var i := 0;
      while i < |originalVars|
        invariant 0 <= i <= |originalVars| && originalVars == old(originalVars)
        invariant forall j :: 0 <= j < i ==> originalVars[j].key != key
      {
        if originalVars[i].key == key {
          originalVars := originalVars[i := Entry(key, v)];
          break;
        }
        i := i + 1;
      }
    }

    /** `save_combo`: the boolean is true exactly when `true` was chosen. */
    method SaveCombo(key: string, newValue: string)
      modifies this
      ensures originalVars == Replace(old(originalVars), key, Bool(newValue == "true"))
    {
      SetFirst(key, Bool(newValue == "true"));
    }

    /** `save_string`: the text is stored as typed. */
    method SaveString(key: string, newValue: string)
      modifies this
      ensures originalVars == Replace(old(originalVars), key, Text(newValue))
    {
      SetFirst(key, Text(newValue));
    }

    /** `save_entry`: input that fails the check changes nothing. Input that
        passes is converted with `int()` when the key is found, which raises
        for more than one leading `-`; then nothing is stored either. */
    method SaveEntry(key: string, newValue: string) returns (outcome: IntEditOutcome)
      modifies this
      ensures !PassesIntCheck(newValue) ==> outcome == InvalidInteger && originalVars == old(originalVars)
      ensures PassesIntCheck(newValue) && FirstIndex(old(originalVars), key).None? ==>
        outcome == Updated && originalVars == old(originalVars)
      ensures PassesIntCheck(newValue) && FirstIndex(old(originalVars), key).Some? && PyInt(newValue).None? ==>
        outcome == IntRaised && originalVars == old(originalVars)
      ensures PassesIntCheck(newValue) && PyInt(newValue).Some? ==>
        outcome == Updated && originalVars == Replace(old(originalVars), key, Int(PyInt(newValue).value))
    {
      if !PassesIntCheck(newValue) {
        return InvalidInteger;
      }
      var parsed := PyInt(newValue);
      if FirstIndex(originalVars, key).Some? && parsed.None? {
        return IntRaised;
      }
      if parsed.Some? {
        SetFirst(key, Int(parsed.value));
      }
      return Updated;
    }

    /** `filter_tree`: the entries whose key contains the search text, both
        lower-cased, in table order; an empty search shows every entry. */
    method FilterTree(searchText: string) returns (shown: seq<Entry>)
      ensures shown == Matching(originalVars, Lower(searchText))
    {
      var search := Lower(searchText);
      if search == [] {
        MatchingEmpty(originalVars);
        return originalVars;
      }
      shown := [];
      for i := 0 to |originalVars|
        invariant shown == Matching(originalVars[..i], search)
      {
        assert originalVars[..i + 1][..i] == originalVars[..i];
        var e := originalVars[i];
        if Contains(Lower(e.key), search) {
          shown := shown + [e];
        }
      }
      assert originalVars[..|originalVars|] == originalVars;
    }

    /** The rebuild of the `variables` string in `save_savegame`. */
    method RebuildVariables() returns (varStr: string)
      ensures varStr == Encode(originalVars)
    {
      var vs := originalVars;
      varStr := "Variable={";
      for i := 0 to |vs|
        invariant varStr == Opening + ItemsText(vs[..i]) + Separator(i, |vs|)
      {
        var valStr := Literal(vs[i].value);
        var item := ItemText(vs[i].key, valStr);
        RebuildStep(vs, i, item);
        varStr := varStr + item;
        if i < |vs| - 1 {
          varStr := varStr + ", ";
        }
        Regroup(Opening, ItemsText(vs[..i]), Separator(i, |vs|), item, Separator(i + 1, |vs|));
      }
      assert vs[..|vs|] == vs;
      varStr := varStr + "};";
    }
  }

  /** What follows the `i`-th item of `n` while the string is rebuilt: a
      separator, unless the item is the first or the last. */
  function Separator(i: nat, n: nat): string {
    if 0 < i < n then ", " else ""
  }

  /** The text between the braces grows by one item, after a separator when
      it is not the first. */
  lemma RebuildStep(vs: seq<Entry>, i: nat, item: string)
    requires i < |vs| && item == ItemText(vs[i].key, Literal(vs[i].value))
    ensures ItemsText(vs[..i + 1]) == ItemsText(vs[..i]) + Separator(i, i + 1) + item
  {
    JoinedStep(EncodeEntry, ", ", vs, i);
  }

  /** A joined list grows by one element, after the separator when it is
      not the first. */
  lemma JoinedStep<T>(f: T -> string, sep: string, xs: seq<T>, i: nat)
    requires i < |xs|
    ensures Joined(f, sep, xs[..i + 1]) == Joined(f, sep, xs[..i]) + (if i > 0 then sep else "") + f(xs[i])
  {
    var ys := xs[..i + 1];
    assert ys[..i] == xs[..i];
    if i == 0 {
      assert Joined(f, sep, ys) == f(xs[0]);
    }
  }

  /** Moving parentheses in a concatenation of strings, proved apart from
      the loop of `RebuildVariables` so that its context stays small. */
  lemma Regroup(a: string, b: string, c: string, d: string, e: string)
    ensures a + b + c + d + e == a + (b + c + d) + e
  {
  }

  /** The rows `populate_tree` shows: each key with its value's text. */
  method PopulateTree(data: seq<Entry>) returns (rows: seq<(string, string)>)
    ensures |rows| == |data|
    ensures forall k :: 0 <= k < |data| ==> rows[k] == (data[k].key, Display(data[k].value))
  {
    rows := [];
    for i := 0 to |data|
      invariant |rows| == i
      invariant forall k :: 0 <= k < i ==> rows[k] == (data[k].key, Display(data[k].value))
    {
      rows := rows + [(data[i].key, Display(data[i].value))];
    }
  }

  /** An entry is shown exactly when its lower-cased key contains the
      needle. */
  lemma {:induction false} MatchingMembers(vs: seq<Entry>, needle: string)
    ensures forall e :: e in Matching(vs, needle) <==> e in vs && Contains(Lower(e.key), needle)
  {
    if vs != [] {
      MatchingMembers(vs[..|vs| - 1], needle);
      assert vs == vs[..|vs| - 1] + [vs[|vs| - 1]];
    }
  }

  /** Filtering keeps the table's order: the filter of a table followed by
      more entries is the filter of the first part followed by the filter of
      the rest. */
  lemma {:induction false} MatchingAppend(a: seq<Entry>, b: seq<Entry>, needle: string)
    ensures Matching(a + b, needle) == Matching(a, needle) + Matching(b, needle)
    decreases |b|
  {
    if b == [] {
      assert a + b == a;
    } else {
      assert (a + b)[..|a + b| - 1] == a + b[..|b| - 1];
      MatchingAppend(a, b[..|b| - 1], needle);
    }
  }

  /** An empty search text is contained in every key: everything is shown. */
  lemma {:induction false} MatchingEmpty(vs: seq<Entry>)
    ensures Matching(vs, "") == vs
  {
    if vs != [] {
      assert OccursAt(Lower(vs[|vs| - 1].key), "", 0);
      MatchingEmpty(vs[..|vs| - 1]);
    }
  }

  /** The text shown for an integer passes the integer check and converts
      back to the same integer, so confirming it unchanged stores the same
      value. */
  lemma IntEditOfDisplay(n: int)
    ensures PassesIntCheck(Display(Int(n))) && PyInt(Display(Int(n))) == Some(n)
  {
    var t := Display(Int(n));
    var d := NatToString(if n < 0 then -n else n);
    assert t == IntToString(n);
    if n < 0 {
      assert t == "-" + d && t[1..] == d;
      assert StripLeadingDashes(t) == StripLeadingDashes(d);
    }
    assert StripLeadingDashes(d) == d;
  }

  /** For input that passes the check, `int()` succeeds exactly when there is
      at most one leading `-`; it then gives the digits' value, negated when
      there is a `-`. */
  lemma IntCheckedInput(t: string)
    requires PassesIntCheck(t)
    ensures var d := StripLeadingDashes(t);
      PyInt(t) == if |t| - |d| > 1 then None else if |t| > |d| then Some(-DigitsValue(0, d)) else Some(DigitsValue(0, d))
  {
    var d := StripLeadingDashes(t);
    if |t| == |d| {
      UnsignedCase(t);
    } else if |t| - |d| == 1 {
      NegatedCase(t);
    } else {
      CheckedIsTrimmed(t);
      DoubleDash(t);
    }
  }

  /** Checked input with no leading `-` is plain digits. */
  lemma UnsignedCase(t: string)
    requires PassesIntCheck(t) && |StripLeadingDashes(t)| == |t|
    ensures PyInt(t) == Some(DigitsValue(0, StripLeadingDashes(t)))
  {
    assert t[0..] == t;
    UnsignedDigits(t);
  }

  /** Checked input with one leading `-` is that `-` and plain digits. */
  lemma NegatedCase(t: string)
    requires PassesIntCheck(t) && |StripLeadingDashes(t)| + 1 == |t|
    ensures PyInt(t) == Some(-DigitsValue(0, StripLeadingDashes(t)))
  {
    NegatedDigits(t);
  }

  /** `int()` of plain digits is their value. */
  lemma UnsignedDigits(d: string)
    requires IsDigits(d)
    ensures PyInt(d) == Some(DigitsValue(0, d))
  {
    DigitsAreGroups(d);
    StripTrimmed(d);
  }

  /** `int()` of one `-` followed by digits is their value negated. */
  lemma NegatedDigits(t: string)
    requires |t| >= 2 && t[0] == '-' && IsDigits(t[1..])
    ensures PyInt(t) == Some(-DigitsValue(0, t[1..]))
  {
    DigitsAreGroups(t[1..]);
    assert t[|t| - 1] == t[1..][|t| - 2];
    StripTrimmed(t);
  }

  /** `int()` rejects text that starts with two `-`. */
  lemma DoubleDash(t: string)
    requires |t| >= 2 && t[0] == '-' && t[1] == '-' && Strip(t) == t
    ensures PyInt(t).None?
  {
    assert t[1..][0] == '-';
  }

  /** Input that passes the check starts with `-` or a digit and ends with a
      digit, so `strip` leaves it alone. */
  lemma CheckedIsTrimmed(t: string)
    requires PassesIntCheck(t)
    ensures |t| > 0 && (t[0] == '-' || IsDigit(t[0])) && Strip(t) == t
  {
    var d := StripLeadingDashes(t);
    assert t[|t| - 1] == d[|d| - 1];
    if |t| == |d| {
      assert t[0] == d[0];
    }
    StripTrimmed(t);
  }

  /** The `--5` case: input the check lets through and `int()` rejects. */
  lemma DoubleDashPassesCheck()
    ensures PassesIntCheck("--5") && PyInt("--5").None?
  {
    assert StripLeadingDashes("--5") == "5" by {
      assert "--5"[1..] == "-5" && "-5"[1..] == "5";
    }
    IntCheckedInput("--5");
  }
}
