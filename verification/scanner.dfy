/** The top-level comma split of `parse_variables`: one scan over the body that
    keeps a quote flag and a bracket depth, and cuts at a comma found outside
    quotes at depth zero. A scan starts afresh after every cut, so each
    definition here takes the position `from` where the current scan started. */
module Scanner {
  import opened Wrappers
  import opened PyStr

  /** How one character moves the bracket depth: every `[` adds one and every
      `]` takes one away, inside quotes too. */
  function DepthStep(c: char): int {
    if c == '[' then 1 else if c == ']' then -1 else 0
  }

  /** The bracket depth after scanning `s[from..upto]` from depth zero. */
  function Depth(s: string, from: nat, upto: nat): int
    requires from <= upto <= |s|
    decreases upto
  {
    if upto == from then 0 else Depth(s, from, upto - 1) + DepthStep(s[upto - 1])
  }

  /** The number of double quotes in `s[from..upto]`: the scan is inside quotes
      exactly when it is odd. */
  function Quotes(s: string, from: nat, upto: nat): nat
    requires from <= upto <= |s|
    decreases upto
  {
    if upto == from then 0 else Quotes(s, from, upto - 1) + (if s[upto - 1] == '"' then 1 else 0)
  }

  /** Position `j` of `s` holds a comma that a scan started at `from` cuts at:
      depth zero and outside quotes. */
  predicate IsCut(s: string, from: nat, j: nat) {
    from <= j < |s| && s[j] == ',' && Depth(s, from, j) == 0 && Quotes(s, from, j) % 2 == 0
  }

  /** The first cut at or after `j` of the scan started at `from`. */
  function NextCut(s: string, from: nat, j: nat): (r: Option<nat>)
    requires from <= j <= |s|
    ensures r.Some? ==> j <= r.value < |s| && IsCut(s, from, r.value)
    ensures forall k :: j <= k < |s| && (r.None? || k < r.value) ==> !IsCut(s, from, k)
    decreases |s| - j
  {
    if j == |s| then None
    else if IsCut(s, from, j) then Some(j)
    else NextCut(s, from, j + 1)
  }

  /** The untrimmed text between the cuts, from `from` on. */
  function PiecesFrom(s: string, from: nat): (r: seq<string>)
    requires from <= |s|
    ensures |r| > 0
    decreases |s| - from
  {
    match NextCut(s, from, from)
    case None => [s[from..]]
    case Some(k) => [s[from..k]] + PiecesFrom(s, k + 1)
  }

  /** Every string of `ps`, stripped. */
  function StripEach(ps: seq<string>): seq<string> {
    seq(|ps|, k requires 0 <= k < |ps| => Strip(ps[k]))
  }

  /** The `items` list of `parse_variables` made from the pieces: every piece
      stripped, the last one kept only when it is not blank. */
  function Finish(ps: seq<string>): seq<string>
    requires |ps| > 0
  {
    var last := Strip(ps[|ps| - 1]);
    StripEach(ps[..|ps| - 1]) + (if last != [] then [last] else [])
  }

  /** The `items` list of `parse_variables` for the stripped body `inner`:
      one item for each piece, except a blank last piece. */
  function TopLevelItems(inner: string): (r: seq<string>)
    ensures |PiecesFrom(inner, 0)| - 1 <= |r| <= |PiecesFrom(inner, 0)|
  {
    Finish(PiecesFrom(inner, 0))
  }

  /** One item per piece, stripped, in the pieces' order; only the last
      piece can be missing, and it is exactly when it is blank. */
  lemma TopLevelItemsShape(inner: string)
    ensures var ps := PiecesFrom(inner, 0); var items := TopLevelItems(inner);
      && (|items| == |ps| || |items| == |ps| - 1)
      && (|items| == |ps| - 1 <==> AllSpace(ps[|ps| - 1]))
      && forall k :: 0 <= k < |items| ==> items[k] == Strip(ps[k]) && IsTrimmed(items[k])
  {
    var ps := PiecesFrom(inner, 0);
    StripEmpty(ps[|ps| - 1]);
    forall k | 0 <= k < |ps|
      ensures IsTrimmed(Strip(ps[k]))
    {
      StripIsTrimmed(ps[k]);
    }
  }

  /** Scanning and cutting as `parse_variables` does it (lines 135-157). */
  method SplitTopLevel(inner: string) returns (items: seq<string>)
    ensures items == TopLevelItems(inner)
  {
    items := [];
    var current := "";
    var inQuotes := false;
    var bracketDepth := 0;
    ghost var start := 0;
    ghost var done: seq<string> := [];
    for i := 0 to |inner|
      invariant start <= i
      invariant current == inner[start..i]
      invariant bracketDepth == Depth(inner, start, i)
      invariant inQuotes <==> Quotes(inner, start, i) % 2 == 1
      invariant NextCut(inner, start, start) == NextCut(inner, start, i)
      invariant PiecesFrom(inner, 0) == done + PiecesFrom(inner, start)
      invariant items == StripEach(done)
    {
      var c := inner[i];
      ScanStep(inner, start, i);
      if c == '[' {
        bracketDepth := bracketDepth + 1;
      } else if c == ']' {
        bracketDepth := bracketDepth - 1;
      } else if c == '"' {
        inQuotes := !inQuotes;
      }
      if c == ',' && bracketDepth == 0 && !inQuotes {
        CutStep(inner, start, i, done);
        items := items + [Strip(current)];
        done := done + [current];
        start := i + 1;
        current := "";
      } else {
        current := current + [c];
      }
    }
    LastPiece(inner, start, done, current);
    if Strip(current) != [] {
      items := items + [Strip(current)];
    }
  }

  /** After the scan, the text since the last cut is the last piece. */
  lemma LastPiece(inner: string, start: nat, done: seq<string>, current: string)
    requires start <= |inner| && current == inner[start..|inner|]
    requires NextCut(inner, start, start) == NextCut(inner, start, |inner|)
    requires PiecesFrom(inner, 0) == done + PiecesFrom(inner, start)
    ensures TopLevelItems(inner) == StripEach(done) + (if Strip(current) != [] then [Strip(current)] else [])
  {
    assert inner[start..] == current;
    FinishLast(done, current);
  }

  /** The items made from the finished pieces and the last one. */
  lemma FinishLast(done: seq<string>, last: string)
    ensures Finish(done + [last]) == StripEach(done) + (if Strip(last) != [] then [Strip(last)] else [])
  {
    assert (done + [last])[..|done|] == done;
  }

  /** A cut moves the text since the last cut to the finished pieces. */
  lemma CutStep(inner: string, start: nat, i: nat, done: seq<string>)
    requires start <= i <= |inner| && NextCut(inner, start, start) == NextCut(inner, start, i)
    requires IsCut(inner, start, i)
    requires PiecesFrom(inner, 0) == done + PiecesFrom(inner, start)
    ensures PiecesFrom(inner, 0) == (done + [inner[start..i]]) + PiecesFrom(inner, i + 1)
    ensures StripEach(done + [inner[start..i]]) == StripEach(done) + [Strip(inner[start..i])]
  {
    var rest := PiecesFrom(inner, i + 1);
    assert PiecesFrom(inner, start) == [inner[start..i]] + rest;
    assert done + ([inner[start..i]] + rest) == (done + [inner[start..i]]) + rest;
    StripEachSnoc(done, inner[start..i]);
  }

  /** Stripping one more piece adds its stripped text at the end. */
  lemma StripEachSnoc(done: seq<string>, x: string)
    ensures StripEach(done + [x]) == StripEach(done) + [Strip(x)]
  {
    var l := StripEach(done + [x]);
    var r := StripEach(done) + [Strip(x)];
    forall k | 0 <= k < |l|
      ensures l[k] == r[k]
    {
      if k < |done| {
        assert (done + [x])[k] == done[k];
      }
    }
  }

  /** One character of the scan: how it moves the depth and the quote count,
      whether it is a cut, and, when it is not, that the next cut is still
      ahead. */
  lemma ScanStep(inner: string, start: nat, i: nat)
    requires start <= i < |inner|
    ensures Depth(inner, start, i + 1) == Depth(inner, start, i) + DepthStep(inner[i])
    ensures Quotes(inner, start, i + 1) == Quotes(inner, start, i) + (if inner[i] == '"' then 1 else 0)
    ensures inner[start..i + 1] == inner[start..i] + [inner[i]]
    ensures IsCut(inner, start, i) <==> inner[i] == ',' && Depth(inner, start, i) == 0 && Quotes(inner, start, i) % 2 == 0
    ensures !IsCut(inner, start, i) ==> NextCut(inner, start, i) == NextCut(inner, start, i + 1)
  {
  }

  /** Joins pieces with single commas. */
  function JoinCommas(ps: seq<string>): string {
    if ps == [] then "" else if |ps| == 1 then ps[0] else ps[0] + "," + JoinCommas(ps[1..])
  }

  /** Cutting drops exactly the separator commas and keeps every other
      character, in order. */
  lemma {:induction false} PiecesJoin(s: string, from: nat)
    requires from <= |s|
    ensures JoinCommas(PiecesFrom(s, from)) == s[from..]
    decreases |s| - from
  {
    match NextCut(s, from, from)
    case None =>
    case Some(k) =>
      var rest := PiecesFrom(s, k + 1);
      PiecesJoin(s, k + 1);
      assert ([s[from..k]] + rest)[1..] == rest;
      assert s[from..] == s[from..k] + "," + s[k + 1..];
  }

  /** The scan of a window depends on the window's characters only. */
  lemma {:induction false} ScanWindow(s: string, a: nat, t: string, b: nat, n: nat)
    requires a + n <= |s| && b + n <= |t|
    requires s[a..a + n] == t[b..b + n]
    ensures Depth(s, a, a + n) == Depth(t, b, b + n)
    ensures Quotes(s, a, a + n) == Quotes(t, b, b + n)
  {
    if n > 0 {
      assert s[a..a + (n - 1)] == s[a..a + n][..n - 1];
      assert t[b..b + (n - 1)] == t[b..b + n][..n - 1];
      ScanWindow(s, a, t, b, n - 1);
      assert s[a + (n - 1)] == s[a..a + n][n - 1];
      assert t[b + (n - 1)] == t[b..b + n][n - 1];
    }
  }

  /** The same holds for cuts. */
  lemma CutWindow(s: string, a: nat, t: string, b: nat, m: nat, n: nat)
    requires a + n <= |s| && b + n <= |t| && m < n
    requires s[a..a + n] == t[b..b + n]
    ensures IsCut(s, a, a + m) == IsCut(t, b, b + m)
  {
    assert s[a..a + m] == s[a..a + n][..m];
    assert t[b..b + m] == t[b..b + n][..m];
    ScanWindow(s, a, t, b, m);
    assert s[a + m] == s[a..a + n][m];
    assert t[b + m] == t[b..b + n][m];
  }

  /** No piece holds a comma that a scan of the piece alone would cut at:
      commas inside quotes or brackets stay inside their item. */
  lemma {:induction false} PiecesHaveNoCut(s: string, from: nat)
    requires from <= |s|
    ensures forall p, j: nat :: p in PiecesFrom(s, from) ==> !IsCut(p, 0, j)
    decreases |s| - from
  {
    var r := NextCut(s, from, from);
    var p := if r.None? then s[from..] else s[from..r.value];
    forall j: nat | j < |p|
      ensures !IsCut(p, 0, j)
    {
      assert s[from..from + |p|] == p[0..|p|];
      CutWindow(s, from, p, 0, j, |p|);
    }
    if r.Some? {
      PiecesHaveNoCut(s, r.value + 1);
    }
  }

  /** A piece that a scan passes through whole: brackets balanced, quotes
      paired, and no comma the scan would cut at. */
  predicate Balanced(p: string) {
    && Depth(p, 0, |p|) == 0 && Quotes(p, 0, |p|) % 2 == 0
    && forall j :: 0 <= j < |p| ==> !IsCut(p, 0, j)
  }

  /** The pieces from `from` on when the scan cuts at `k` first. */
  lemma PiecesAtCut(s: string, from: nat, k: nat)
    requires from <= k < |s| && NextCut(s, from, from) == Some(k)
    ensures PiecesFrom(s, from) == [s[from..k]] + PiecesFrom(s, k + 1)
  {
  }

  /** Balanced pieces joined with commas are cut back into those pieces. */
  lemma PiecesOfJoin(ps: seq<string>)
    requires |ps| > 0 && forall i :: 0 <= i < |ps| ==> Balanced(ps[i])
    ensures PiecesFrom(JoinCommas(ps), 0) == ps
  {
    var s := JoinCommas(ps);
    assert s[0..] == s;
    PiecesOfJoinAt(s, 0, ps);
  }

  /** The same for a join that starts at `from`. */
  lemma {:induction false} PiecesOfJoinAt(s: string, from: nat, ps: seq<string>)
    requires from <= |s| && s[from..] == JoinCommas(ps)
    requires |ps| > 0 && forall i :: 0 <= i < |ps| ==> Balanced(ps[i])
    ensures PiecesFrom(s, from) == ps
    decreases |ps|
  {
    var p := ps[0];
    var e := from + |p|;
    JoinHead(s, from, ps);
    FirstPieceWindow(s, from, p);
    if |ps| == 1 {
      assert NextCut(s, from, e).None?;
      assert ps == [s[from..]];
    } else {
      assert IsCut(s, from, e);
      PiecesAtCut(s, from, e);
      PiecesOfJoinAt(s, e + 1, ps[1..]);
      assert ps == [p] + ps[1..];
    }
  }

  /** Where the first piece of a join ends: at the end of the text, or at
      the comma before the join of the rest. */
  lemma JoinHead(s: string, from: nat, ps: seq<string>)
    requires from <= |s| && s[from..] == JoinCommas(ps) && |ps| > 0
    ensures var e := from + |ps[0]|;
      && e <= |s| && s[from..e] == ps[0]
      && (|ps| == 1 ==> e == |s| && s[from..] == ps[0])
      && (|ps| > 1 ==> e < |s| && s[e] == ',' && s[e + 1..] == JoinCommas(ps[1..]))
  {
    var p := ps[0];
    var t := s[from..];
    if |ps| > 1 {
      assert t == p + "," + JoinCommas(ps[1..]);
      assert t[..|p|] == p;
      assert t[|p| + 1..] == JoinCommas(ps[1..]);
      assert s[from + |p| + 1..] == t[|p| + 1..];
      assert s[from..from + |p|] == t[..|p|];
      assert s[from + |p|] == t[|p|];
    } else {
      assert s[from..from + |p|] == t;
    }
  }

  /** A balanced piece at `from` is passed through whole by the scan that
      starts there, which is back at depth zero and outside quotes after it. */
  lemma FirstPieceWindow(s: string, from: nat, p: string)
    requires from + |p| <= |s| && s[from..from + |p|] == p && Balanced(p)
    ensures NextCut(s, from, from) == NextCut(s, from, from + |p|)
    ensures Depth(s, from, from + |p|) == 0 && Quotes(s, from, from + |p|) % 2 == 0
  {
    assert p[0..|p|] == p;
    forall k | from <= k < from + |p|
      ensures !IsCut(s, from, k)
    {
      CutWindow(s, from, p, 0, k - from, |p|);
    }
    ScanWindow(s, from, p, 0, |p|);
    SkipNoCuts(s, from, from, from + |p|);
  }

  /** No cut between `j` and `upto` leaves the next cut where it was. */
  lemma {:induction false} SkipNoCuts(s: string, from: nat, j: nat, upto: nat)
    requires from <= j <= upto <= |s|
    requires forall k :: j <= k < upto ==> !IsCut(s, from, k)
    ensures NextCut(s, from, j) == NextCut(s, from, upto)
    decreases upto - j
  {
    if j < upto {
      SkipNoCuts(s, from, j + 1, upto);
    }
  }

  /** A character that is neither a bracket nor a quote at the start of a scan
      changes nothing that follows. */
  lemma {:induction false} ScanSkip(s: string, a: nat, c: nat)
    requires a < c <= |s| && DepthStep(s[a]) == 0 && s[a] != '"'
    ensures Depth(s, a, c) == Depth(s, a + 1, c) && Quotes(s, a, c) == Quotes(s, a + 1, c)
    decreases c
  {
    if c > a + 1 {
      ScanSkip(s, a, c - 1);
    }
  }

  /** A piece stays balanced with a space in front of it. */
  lemma SpaceBalanced(p: string)
    requires Balanced(p)
    ensures Balanced(" " + p)
  {
    var q := " " + p;
    assert q[1..1 + |p|] == p[0..|p|];
    forall m | 0 <= m <= |p|
      ensures Depth(q, 0, 1 + m) == Depth(p, 0, m) && Quotes(q, 0, 1 + m) == Quotes(p, 0, m)
    {
      assert q[1..1 + m] == p[0..m];
      ScanWindow(q, 1, p, 0, m);
      ScanSkip(q, 0, 1 + m);
    }
    forall j | 0 <= j < |q|
      ensures !IsCut(q, 0, j)
    {
      if j > 0 {
        assert !IsCut(p, 0, j - 1);
        assert q[j] == p[j - 1];
      }
    }
  }
}
