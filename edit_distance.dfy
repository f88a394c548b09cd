/** `levenshtein_distance` (app.py): the dynamic-programming table filled column by
    column, and the textbook recurrence it computes. */
module EditDistance {
  import opened Outcomes

  /** The substitution cost: unit costs, case-sensitive comparison. */
  function Cost(a: char, b: char): (c: nat)
    ensures c <= 1
    ensures c == 0 <==> a == b
  {
    if a == b then 0 else 1
  }

  /** Python's `min` of three values. */
  function Min3(a: nat, b: nat, c: nat): (m: nat)
    ensures m <= a && m <= b && m <= c
    ensures m == a || m == b || m == c
  {
    if a <= b && a <= c then a else if b <= c then b else c
  }

  /** Cell `(i, j)` of the table: the Levenshtein distance between the prefixes `s[..i]`
      and `t[..j]`, by the recurrence of app.py:52-66. */
  function Dist(s: string, t: string, i: nat, j: nat): nat
    requires i <= |s| && j <= |t|
    decreases i + j
  {
    if i == 0 then j
    else if j == 0 then i
    else Min3(Dist(s, t, i - 1, j) + 1,
              Dist(s, t, i, j - 1) + 1,
              Dist(s, t, i - 1, j - 1) + Cost(s[i - 1], t[j - 1]))
  }

  /** The Levenshtein distance: the fewest single-character insertions, deletions and
      substitutions turning `s` into `t`, the bottom-right cell of the table. */
  function Lev(s: string, t: string): (d: nat)
    ensures |s| == 0 ==> d == |t|
    ensures |t| == 0 ==> d == |s|
  {
    Dist(s, t, |s|, |t|)
  }

  /** The table of app.py:48-56: `(|s| + 1) x (|t| + 1)` cells, all zero, then column 0
      set to `0..|s|` and row 0 to `0..|t|`. */
  method NewTable(s: string, t: string) returns (dist: array2<nat>)
    ensures fresh(dist)
    ensures dist.Length0 == |s| + 1 && dist.Length1 == |t| + 1
    ensures forall a :: 0 <= a <= |s| ==> dist[a, 0] == a
    ensures forall b :: 0 <= b <= |t| ==> dist[0, b] == b
    ensures forall a, b :: 1 <= a <= |s| && 1 <= b <= |t| ==> dist[a, b] == 0
  {
    var rows := |s| + 1;
    var cols := |t| + 1;
    dist := new nat[rows, cols]((_, _) => 0);

    for i := 1 to rows
      invariant forall a :: 0 <= a < i ==> dist[a, 0] == a
      invariant forall b :: 0 <= b < cols ==> dist[0, b] == 0
      invariant forall a, b :: 1 <= a < rows && 1 <= b < cols ==> dist[a, b] == 0
    {
      dist[i, 0] := i;
    }
    for i := 1 to cols
      invariant forall a :: 0 <= a < rows ==> dist[a, 0] == a
      invariant forall b :: 0 <= b < i ==> dist[0, b] == b
      invariant forall a, b :: 1 <= a < rows && 1 <= b < cols ==> dist[a, b] == 0
    {
      dist[0, i] := i;
    }
  }

  /** One cell of the nested loops: the minimum of its filled neighbours is its value. */
  lemma CellStep(s: string, t: string, row: nat, col: nat, up: nat, left: nat, diag: nat)
    requires 1 <= row <= |s| && 1 <= col <= |t|
    requires up == Dist(s, t, row - 1, col) && left == Dist(s, t, row, col - 1)
    requires diag == Dist(s, t, row - 1, col - 1)
    ensures Min3(up + 1, left + 1, diag + Cost(s[row - 1], t[col - 1])) == Dist(s, t, row, col)
  {
  }

  /** One run of the inner loop (app.py:59-66): fills column `col` top to bottom from
      column `col - 1`. `lastRow` is the loop variable `row`; the run binds it to `|s|` if
      it iterates at all and otherwise leaves it as it was. */
  method FillColumn(dist: array2<nat>, s: string, t: string, col: nat, lastRow: Option<nat>)
      returns (row': Option<nat>)
    requires dist.Length0 == |s| + 1 && dist.Length1 == |t| + 1
    requires 1 <= col <= |t|
    requires forall a {:trigger dist[a, col - 1]} :: 0 <= a <= |s| ==> dist[a, col - 1] == Dist(s, t, a, col - 1)
    requires dist[0, col] == col
    modifies dist
    ensures forall a {:trigger dist[a, col]} :: 0 <= a <= |s| ==> dist[a, col] == Dist(s, t, a, col)
    ensures forall a, b :: 0 <= a <= |s| && 0 <= b <= |t| && b != col ==> dist[a, b] == old(dist[a, b])
    ensures row' == if |s| > 0 then Some(|s|) else lastRow
  {
    row' := lastRow;
    for row := 1 to |s| + 1
      invariant forall a {:trigger dist[a, col]} :: 0 <= a < row ==> dist[a, col] == Dist(s, t, a, col)
      invariant forall a, b :: 0 <= a <= |s| && 0 <= b <= |t| && b != col ==> dist[a, b] == old(dist[a, b])
      invariant row' == if row > 1 then Some(row - 1) else lastRow
    {
      row' := Some(row);
      var cost := if s[row - 1] == t[col - 1] then 0 else 1;
      CellStep(s, t, row, col, dist[row - 1, col], dist[row, col - 1], dist[row - 1, col - 1]);
      dist[row, col] := Min3(dist[row - 1, col] + 1,      // deletion
                             dist[row, col - 1] + 1,      // insertion
                             dist[row - 1, col - 1] + cost); // substitution
    }
  }

  /** `levenshtein_distance(s, t)`. The answer is read through the loop variables `row`
      and `col` after the loops; when `s` or `t` is empty a loop never runs, `row` is
      never bound, and Python raises `UnboundLocalError` instead of returning. */
  method LevenshteinDistance(s: string, t: string) returns (r: Result<nat>)
    ensures r.Err? <==> (|s| == 0 || |t| == 0)
    ensures r.Err? ==> r.error == UnboundLocalError("row")
    ensures r.Ok? ==> r.value == Lev(s, t)
  {
    var rows := |s| + 1;
    var cols := |t| + 1;
    var dist := NewTable(s, t);

    // The loop variables as Python leaves them after the loops: unbound until assigned.
    var lastRow: Option<nat> := None;
    var lastCol: Option<nat> := None;
    for col := 1 to cols
      invariant forall a, b {:trigger dist[a, b]} :: 0 <= a < rows && 0 <= b < col ==> dist[a, b] == Dist(s, t, a, b)
      invariant forall b :: col <= b < cols ==> dist[0, b] == b
      invariant lastRow == if col > 1 && rows > 1 then Some(rows - 1) else None
      invariant lastCol == if col > 1 then Some(col - 1) else None
    {
      lastCol := Some(col);
      lastRow := FillColumn(dist, s, t, col, lastRow);
    }

    if lastRow.None? || lastCol.None? {
      r := Err(UnboundLocalError("row"));
    } else {
      assert dist[rows - 1, cols - 1] == Dist(s, t, |s|, |t|);
      r := Ok(dist[lastRow.value, lastCol.value]);
    }
  }

  /** Cell `(i, j)` depends only on the first `i` characters of `s` and the first `j`
      of `t`. */
  lemma {:induction false} DistAgree(s: string, t: string, s': string, t': string, i: nat, j: nat)
    requires i <= |s| && i <= |s'| && j <= |t| && j <= |t'|
    requires forall k :: 0 <= k < i ==> s[k] == s'[k]
    requires forall k :: 0 <= k < j ==> t[k] == t'[k]
    ensures Dist(s, t, i, j) == Dist(s', t', i, j)
    decreases i + j
  {
    if i > 0 && j > 0 {
      DistAgree(s, t, s', t', i - 1, j);
      DistAgree(s, t, s', t', i, j - 1);
      DistAgree(s, t, s', t', i - 1, j - 1);
    }
  }

  /** Cell `(i, j)` is the distance between the prefixes `s[..i]` and `t[..j]`. */
  lemma DistOfPrefixes(s: string, t: string, i: nat, j: nat)
    requires i <= |s| && j <= |t|
    ensures Dist(s, t, i, j) == Lev(s[..i], t[..j])
  {
    DistAgree(s, t, s[..i], t[..j], i, j);
  }

  /** Cell `(i, j)` is zero exactly when the two prefixes are equal. */
  lemma {:induction false} DistZeroIff(s: string, t: string, i: nat, j: nat)
    requires i <= |s| && j <= |t|
    ensures Dist(s, t, i, j) == 0 <==> (i == j && s[..i] == t[..j])
    decreases i + j
  {
    if i > 0 && j > 0 {
      DistZeroIff(s, t, i - 1, j - 1);
      assert s[..i] == s[..i - 1] + [s[i - 1]] && t[..j] == t[..j - 1] + [t[j - 1]];
      if i == j && s[..i] == t[..j] {
        assert s[..i - 1] == s[..i][..i - 1];
        assert t[..j - 1] == t[..j][..j - 1];
      }
    }
  }

  /** Only identical strings are at distance zero; in particular `Lev(s, s) == 0`. */
  lemma LevZeroIff(s: string, t: string)
    ensures Lev(s, t) == 0 <==> s == t
  {
    DistZeroIff(s, t, |s|, |t|);
    assert s[..|s|] == s && t[..|t|] == t;
  }

  /** The table is symmetric: cell `(i, j)` for `(s, t)` is cell `(j, i)` for `(t, s)`. */
  lemma {:induction false} DistSymmetric(s: string, t: string, i: nat, j: nat)
    requires i <= |s| && j <= |t|
    ensures Dist(s, t, i, j) == Dist(t, s, j, i)
    decreases i + j
  {
    if i > 0 && j > 0 {
      DistSymmetric(s, t, i - 1, j);
      DistSymmetric(s, t, i, j - 1);
      DistSymmetric(s, t, i - 1, j - 1);
      assert Cost(s[i - 1], t[j - 1]) == Cost(t[j - 1], s[i - 1]);
    }
  }

  /** The distance is symmetric in its arguments. */
  lemma LevSymmetric(s: string, t: string)
    ensures Lev(s, t) == Lev(t, s)
  {
    DistSymmetric(s, t, |s|, |t|);
  }

  /** Cell `(i, j)` is at least `|i - j|`. */
  lemma {:induction false} DistLowerBound(s: string, t: string, i: nat, j: nat)
    requires i <= |s| && j <= |t|
    ensures Dist(s, t, i, j) >= if i >= j then i - j else j - i
    decreases i + j
  {
    if i > 0 && j > 0 {
      DistLowerBound(s, t, i - 1, j);
      DistLowerBound(s, t, i, j - 1);
      DistLowerBound(s, t, i - 1, j - 1);
    }
  }

  /** Cell `(i, j)` is at most `max(i, j)`. */
  lemma {:induction false} DistUpperBound(s: string, t: string, i: nat, j: nat)
    requires i <= |s| && j <= |t|
    ensures Dist(s, t, i, j) <= if i >= j then i else j
    decreases i + j
  {
    if i > 0 && j > 0 {
      DistUpperBound(s, t, i - 1, j - 1);
    }
  }

  /** The distance lies between the difference of the lengths and the longer length. */
  lemma LevBounds(s: string, t: string)
    ensures Lev(s, t) >= if |s| >= |t| then |s| - |t| else |t| - |s|
    ensures Lev(s, t) <= if |s| >= |t| then |s| else |t|
  {
    DistLowerBound(s, t, |s|, |t|);
    DistUpperBound(s, t, |s|, |t|);
  }

  /** Prefixes with no character in common are as far apart as the longer one is long. */
  lemma {:induction false} DistDisjoint(s: string, t: string, i: nat, j: nat)
    requires i <= |s| && j <= |t|
    requires forall a, b :: 0 <= a < i && 0 <= b < j ==> s[a] != t[b]
    ensures Dist(s, t, i, j) == if i >= j then i else j
    decreases i + j
  {
    DistUpperBound(s, t, i, j);
    if i > 0 && j > 0 {
      DistDisjoint(s, t, i - 1, j);
      DistDisjoint(s, t, i, j - 1);
      DistDisjoint(s, t, i - 1, j - 1);
      assert Cost(s[i - 1], t[j - 1]) == 1;
    }
  }

  /** Strings with no character in common are as far apart as the longer one is long. */
  lemma LevDisjoint(s: string, t: string)
    requires forall a, b :: 0 <= a < |s| && 0 <= b < |t| ==> s[a] != t[b]
    ensures Lev(s, t) == if |s| >= |t| then |s| else |t|
  {
    DistDisjoint(s, t, |s|, |t|);
  }
}
