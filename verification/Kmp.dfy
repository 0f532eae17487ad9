/**
 * Knuth-Morris-Pratt matching, as the framer (sync search and rescan), the text codec
 * (terminator search) and the compiler (prefix tables) each write it out, and the naive search
 * it is measured against.
 *
 * The automaton's state after a text is the length of the longest prefix of the pattern that the
 * text ends with.
 */
module Kmp {
  import opened Bytes

  // ---------------------------------------------------------------- the naive search

  /** `p` stands in `s` at offset `i`. */
  ghost predicate OccursAt(p: bytes, s: bytes, i: nat) {
    i + |p| <= |s| && s[i..i + |p|] == p
  }

  /** The leftmost occurrence of `p` in `s`. */
  function Find(p: bytes, s: bytes): Option<nat> {
    if |s| < |p| then None
    else if p <= s then Some(0)
    else if s == [] then None
    else match Find(p, s[1..])
      case None => None
      case Some(i) => Some(i + 1)
  }

  lemma {:induction false} FindIsLeftmost(p: bytes, s: bytes)
    ensures Find(p, s).Some? ==> OccursAt(p, s, Find(p, s).value)
    ensures forall i: nat | OccursAt(p, s, i) :: Find(p, s).Some? && Find(p, s).value <= i
  {
    if |s| >= |p| && !(p <= s) && s != [] {
      FindIsLeftmost(p, s[1..]);
      forall i: nat
        ensures OccursAt(p, s, i) <==> i > 0 && OccursAt(p, s[1..], i - 1)
      {
        assert i > 0 && i + |p| <= |s| ==> s[1..][i - 1..i - 1 + |p|] == s[i..i + |p|];
        assert i == 0 ==> s[0..|p|] == s[..|p|];
      }
    }
  }

  /** An occurrence with none before it is the one found. */
  lemma LeftmostIsFound(p: bytes, s: bytes, i: nat)
    requires OccursAt(p, s, i) && forall j: nat | j < i :: !OccursAt(p, s, j)
    ensures Find(p, s) == Some(i)
  {
    FindIsLeftmost(p, s);
  }

  lemma AbsentIsNotFound(p: bytes, s: bytes)
    requires forall i: nat :: !OccursAt(p, s, i)
    ensures Find(p, s) == None
  {
    FindIsLeftmost(p, s);
  }

  lemma NothingBefore(p: bytes, s: bytes, i: nat)
    requires Find(p, s) == Some(i)
    ensures forall j: nat | j < i :: !OccursAt(p, s, j)
  {
    FindIsLeftmost(p, s);
  }

  /** What is found does not depend on what follows it. */
  lemma FindStable(p: bytes, s: bytes, rest: bytes)
    requires Find(p, s).Some?
    ensures Find(p, s + rest) == Find(p, s)
  {
    hide Find;
    var i := Find(p, s).value;
    FindIsLeftmost(p, s);
    forall j: nat | j <= i
      ensures OccursAt(p, s + rest, j) <==> OccursAt(p, s, j)
    {
      assert (s + rest)[j..j + |p|] == s[j..j + |p|];
    }
    LeftmostIsFound(p, s + rest, i);
  }

  lemma FoundInPrefix(p: bytes, s: bytes, n: nat)
    requires n <= |s| && Find(p, s).Some? && Find(p, s).value + |p| <= n
    ensures Find(p, s[..n]) == Find(p, s)
  {
    var i := Find(p, s).value;
    FindIsLeftmost(p, s);
    NothingBefore(p, s, i);
    forall j: nat | j <= i
      ensures OccursAt(p, s[..n], j) <==> OccursAt(p, s, j)
    {
      assert s[..n][j..j + |p|] == s[j..j + |p|];
    }
    LeftmostIsFound(p, s[..n], i);
  }

  // ---------------------------------------------------------------- the automaton's state

  /** The text `t` ends with the first `k` bytes of the pattern `p`. */
  ghost predicate Overlaps(p: bytes, t: bytes, k: nat) {
    k <= |p| && k <= |t| && t[|t| - k..] == p[..k]
  }

  ghost function LongestUpTo(p: bytes, t: bytes, k: nat): nat {
    if k == 0 || Overlaps(p, t, k) then k else LongestUpTo(p, t, k - 1)
  }

  /** The longest overlap. */
  ghost function Longest(p: bytes, t: bytes): nat {
    LongestUpTo(p, t, if |p| < |t| then |p| else |t|)
  }

  lemma {:induction false} LongestUpToFacts(p: bytes, t: bytes, k: nat)
    requires k <= |p| && k <= |t|
    ensures Overlaps(p, t, LongestUpTo(p, t, k))
    ensures LongestUpTo(p, t, k) <= k
    ensures forall j: nat | LongestUpTo(p, t, k) < j <= k :: !Overlaps(p, t, j)
  {
    if k == 0 {
      assert Overlaps(p, t, 0);
    } else if !Overlaps(p, t, k) {
      LongestUpToFacts(p, t, k - 1);
    }
  }

  lemma LongestFacts(p: bytes, t: bytes)
    ensures Overlaps(p, t, Longest(p, t))
    ensures forall j: nat | Longest(p, t) < j :: !Overlaps(p, t, j)
  {
    LongestUpToFacts(p, t, if |p| < |t| then |p| else |t|);
  }

  lemma LongestIs(p: bytes, t: bytes, k: nat)
    requires Overlaps(p, t, k) && forall j: nat | k < j :: !Overlaps(p, t, j)
    ensures Longest(p, t) == k
  {
    LongestFacts(p, t);
  }

  /**
   * The first `n` rows of a prefix table: row `i` is the length of the longest proper border of
   * `p[..i + 1]`, that is, the longest prefix of `p` that `p[1..i + 1]` ends with.
   */
  ghost predicate TableRows(p: bytes, table: seq<nat>, n: nat) {
    n <= |table| && n <= |p| &&
    forall i: nat {:trigger table[i]} | i < n :: table[i] == Longest(p, p[1..i + 1])
  }

  ghost predicate PrefixTable(p: bytes, table: seq<nat>) {
    |table| == |p| && TableRows(p, table, |p|)
  }

  /** Overlaps of a text below a known overlap `m` are exactly the borders of `p[..m]`. */
  lemma OverlapIsBorder(p: bytes, t: bytes, m: nat, j: nat)
    requires Overlaps(p, t, m) && j < m
    ensures Overlaps(p, t, j) <==> Overlaps(p, p[1..m], j)
  {
    var inner := p[1..m];
    assert t[|t| - m..][m - j..] == t[|t| - j..];
    assert p[..m][m - j..] == inner[|inner| - j..];
  }

  /** One more text byte extends an overlap exactly when it is the pattern's next byte. */
  lemma OverlapGrows(p: bytes, t: bytes, b: byte, j: nat)
    requires 0 < j
    ensures Overlaps(p, t + [b], j) <==> j <= |p| && Overlaps(p, t, j - 1) && p[j - 1] == b
  {
    if j <= |p| && j <= |t| + 1 {
      var u := t + [b];
      assert u[|u| - j..] == t[|t| - (j - 1)..] + [b];
      assert p[..j] == p[..j - 1] + [p[j - 1]];
      if Overlaps(p, u, j) {
        assert (t[|t| - (j - 1)..] + [b])[..j - 1] == t[|t| - (j - 1)..];
        assert (p[..j - 1] + [p[j - 1]])[..j - 1] == p[..j - 1];
        assert (t[|t| - (j - 1)..] + [b])[j - 1] == b;
      }
    }
  }

  lemma LongestShort(p: bytes, t: bytes)
    ensures Longest(p, t) <= |t| && Longest(p, t) <= |p|
  {
    hide Longest;
    LongestFacts(p, t);
  }

  /** Two units for the byte, and two for each fallback from a partial match that it breaks. */
  ghost function StepPrice(p: bytes, m: nat, b: byte): nat
    requires m < |p|
  {
    if m == 0 || b == p[m] then 2
    else
      LongestShort(p, p[1..m]);
      2 + StepPrice(p, Longest(p, p[1..m]), b)
  }

  /**
   * The fallback loop on one text byte. `t` is the text read before `b`; rows below `m` of the
   * table suffice, so the same loop also serves the table's own construction. `units` is the
   * work the framer charges for the byte: at most four units per byte, once the overlap gained
   * is set off at two units each.
   */
  method Advance(p: bytes, table: seq<nat>, ghost t: bytes, m: nat, b: byte)
    returns (next: nat, units: nat)
    requires m < |p| && m == Longest(p, t) && TableRows(p, table, m)
    ensures next == Longest(p, t + [b]) <= m + 1
    ensures 2 <= units <= 2 + 2 * m
    ensures units + 2 * next <= 4 + 2 * m
    ensures units == StepPrice(p, m, b)
  {
    hide Longest;
    LongestFacts(p, t);
    next := m;
    units := 1;
    while next != 0 && b != p[next]
      invariant next <= m && Overlaps(p, t, next)
      invariant forall j: nat | next < j < |p| && Overlaps(p, t, j) :: p[j] != b
      invariant units == 1 + 2 * (units / 2) && units / 2 + next <= m
      invariant units + StepPrice(p, next, b) == 1 + StepPrice(p, m, b)
    {
      var border := table[next - 1];
      LongestFacts(p, p[1..next]);
      forall j: nat | border <= j < next
        ensures Overlaps(p, t, j) <==> Overlaps(p, p[1..next], j)
      {
        OverlapIsBorder(p, t, next, j);
      }
      units := units + 2;
      next := border;
    }
    units := units + 1;
    forall j: nat | 0 < j
      ensures Overlaps(p, t + [b], j) <==> j <= |p| && Overlaps(p, t, j - 1) && p[j - 1] == b
    {
      OverlapGrows(p, t, b, j);
    }
    if b == p[next] {
      next := next + 1;
    }
    LongestIs(p, t + [b], next);
  }

  lemma TableGrows(p: bytes, rows: seq<nat>, n: nat, row: nat)
    requires TableRows(p, rows, n) && n < |p| && n < |rows| && row == Longest(p, p[1..n + 1])
    ensures TableRows(p, rows[n := row], n + 1)
  {
  }

  lemma TableStarts(p: bytes, table: seq<nat>)
    requires table == seq(|p|, _ => 0)
    ensures p == [] ==> PrefixTable(p, table)
    ensures p != [] ==> Longest(p, p[1..1]) == 0 && TableRows(p, table, 1)
  {
    if p != [] {
      assert p[1..1] == [];
    }
  }

  /** The table construction of the compiler and the plan builder. */
  method BuildPrefixTable(p: bytes) returns (table: seq<nat>)
    ensures PrefixTable(p, table)
  {
    hide Longest, TableRows;
    table := seq(|p|, _ => 0);
    TableStarts(p, table);
    if p == [] {
      return;
    }
    var prefix: nat := 0;
    var index: nat := 1;
    while index < |p|
      invariant 1 <= index <= |p| == |table|
      invariant prefix < index && prefix == Longest(p, p[1..index])
      invariant TableRows(p, table, index)
    {
      TablePrefix(p, table, index, prefix);
      var next, units := Advance(p, table, p[1..index], prefix, p[index]);
      assert p[1..index] + [p[index]] == p[1..index + 1];
      prefix := next;
      TableGrows(p, table, index, prefix);
      table := table[index := prefix];
      index := index + 1;
    }
  }

  lemma TablePrefix(p: bytes, rows: seq<nat>, n: nat, m: nat)
    requires TableRows(p, rows, n) && m <= n
    ensures TableRows(p, rows, m)
  {
  }

  // ---------------------------------------------------------------- the automaton as a search

  /** The whole pattern overlaps exactly when the text ends with it. */
  lemma FullOverlap(p: bytes, t: bytes)
    ensures Longest(p, t) <= |p|
    ensures Longest(p, t) == |p| <==> |p| <= |t| && OccursAt(p, t, |t| - |p|)
  {
    hide Longest;
    LongestFacts(p, t);
    if |p| <= |t| {
      assert t[|t| - |p|..] == t[|t| - |p|..|t|] && p[..|p|] == p;
      assert OccursAt(p, t, |t| - |p|) ==> Overlaps(p, t, |p|);
    }
  }

  /** A text that is itself a prefix of the pattern overlaps all of it. */
  lemma PrefixOverlap(p: bytes, m: nat)
    requires m <= |p|
    ensures Longest(p, p[..m]) == m
  {
    LongestIs(p, p[..m], m);
  }

  /**
   * What the automaton's state means for the future: an occurrence of the pattern that begins
   * inside the text read so far must begin within its last `Longest` bytes, however the text
   * goes on.
   */
  lemma NoEarlierStart(p: bytes, t: bytes, future: bytes, i: nat)
    requires i + Longest(p, t) < |t| <= i + |p|
    ensures !OccursAt(p, t + future, i)
  {
    hide Longest;
    LongestFacts(p, t);
    var j := |t| - i;
    var u := t + future;
    assert OccursAt(p, u, i) ==> p[..j] == u[i..i + |p|][..j] == t[|t| - j..];
    assert OccursAt(p, u, i) ==> Overlaps(p, t, j);
  }

  /** A scan in progress: no occurrence of `p` in `t` yet, and `m` is the automaton's state. */
  ghost predicate Scanned(p: bytes, t: bytes, m: nat) {
    m < |p| && m == Longest(p, t) && Find(p, t) == None
  }

  lemma ScanStart(p: bytes)
    requires p != []
    ensures Scanned(p, [], 0)
  {
  }

  /** One more byte either keeps the scan going or completes the leftmost occurrence. */
  lemma ScanStep(p: bytes, t: bytes, b: byte)
    requires p != [] && Find(p, t) == None
    ensures Longest(p, t + [b]) <= |p|
    ensures Longest(p, t + [b]) < |p| ==> Scanned(p, t + [b], Longest(p, t + [b]))
    ensures Longest(p, t + [b]) == |p| ==>
              |p| <= |t| + 1 && Find(p, t + [b]) == Some(|t| + 1 - |p|)
  {
    hide Longest, Find, OccursAt;
    FullOverlap(p, t + [b]);
    if Longest(p, t + [b]) == |p| {
      ScanFinds(p, t, b);
    } else {
      ScanGoesOn(p, t, b);
    }
  }

  lemma ScanFinds(p: bytes, t: bytes, b: byte)
    requires Find(p, t) == None && |p| <= |t| + 1 && OccursAt(p, t + [b], |t| + 1 - |p|)
    ensures Find(p, t + [b]) == Some(|t| + 1 - |p|)
  {
    hide OccursAt, Find;
    forall i: nat | i < |t| + 1 - |p|
      ensures !OccursAt(p, t + [b], i)
    {
      NotFoundBefore(p, t, b, i);
    }
    LeftmostIsFound(p, t + [b], |t| + 1 - |p|);
  }

  lemma ScanGoesOn(p: bytes, t: bytes, b: byte)
    requires Find(p, t) == None
    requires |p| <= |t| + 1 ==> !OccursAt(p, t + [b], |t| + 1 - |p|)
    ensures Find(p, t + [b]) == None
  {
    hide OccursAt, Find;
    forall i: nat
      ensures !OccursAt(p, t + [b], i)
    {
      if i + |p| != |t| + 1 {
        NotFoundBefore(p, t, b, i);
      }
    }
    AbsentIsNotFound(p, t + [b]);
  }

  lemma NotFoundBefore(p: bytes, t: bytes, b: byte, i: nat)
    requires Find(p, t) == None && i + |p| != |t| + 1
    ensures !OccursAt(p, t + [b], i)
  {
    FindIsLeftmost(p, t);
    assert i + |p| <= |t| ==> (t + [b])[i..i + |p|] == t[i..i + |p|];
    assert !OccursAt(p, t, i);
  }

  /** When a scan has run to its end, what the pattern may still begin with is its state. */
  lemma ScannedStart(p: bytes, t: bytes, m: nat, future: bytes, i: nat)
    requires Scanned(p, t, m) && i + m < |t|
    ensures !OccursAt(p, t + future, i)
  {
    hide Longest, Find;
    if |t| <= i + |p| {
      NoEarlierStart(p, t, future, i);
    } else {
      FindIsLeftmost(p, t);
      assert !OccursAt(p, t, i);
      assert (t + future)[i..i + |p|] == t[i..i + |p|];
    }
  }
}
