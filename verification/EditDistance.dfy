/** The edit distance of two code point strings: the table the program fills, and the
    least number of single-character edits it stands for. */
module EditDistance {
  type Text = seq<int>

  // ----- what a distance is

  /** One insertion, deletion or substitution of a single character turns `a` into `b`. */
  ghost predicate OneEdit(a: Text, b: Text) {
    exists x, y, c: Text, d: Text :: Replaces(a, b, x, y, c, d)
  }

  ghost predicate Replaces(a: Text, b: Text, x: Text, y: Text, c: Text, d: Text) {
    a == x + c + y && b == x + d + y && |c| <= 1 && |d| <= 1 && c != d
  }

  /** `n` edits lead from `a` to `b`. */
  ghost predicate Reaches(a: Text, b: Text, n: nat)
    decreases n
  {
    if n == 0 then a == b else exists m :: OneEdit(a, m) && Reaches(m, b, n - 1)
  }

  /** `n` is the least number of edits that lead from `a` to `b`. */
  ghost predicate IsLeast(a: Text, b: Text, n: int) {
    n >= 0 && Reaches(a, b, n) && forall m: nat :: Reaches(a, b, m) ==> n <= m
  }

  // ----- the recurrence behind the table

  function Min3(a: nat, b: nat, c: nat): nat {
    var m := a;
    var m := if b < m then b else m;
    if c < m then c else m
  }

  function Init(a: Text): Text
    requires a != []
  {
    a[..|a| - 1]
  }

  function Last(a: Text): int
    requires a != []
  {
    a[|a| - 1]
  }

  function Dist(a: Text, b: Text): nat
    decreases |a| + |b|
  {
    if a == [] then |b|
    else if b == [] then |a|
    else
      Min3(Dist(Init(a), b) + 1, Dist(a, Init(b)) + 1,
           Dist(Init(a), Init(b)) + if Last(a) == Last(b) then 0 else 1)
  }

  lemma {:induction false} DistSymmetric(a: Text, b: Text)
    ensures Dist(a, b) == Dist(b, a)
    decreases |a| + |b|
  {
    if a != [] && b != [] {
      DistSymmetric(Init(a), b);
      DistSymmetric(a, Init(b));
      DistSymmetric(Init(a), Init(b));
    }
  }

  // ----- the distance is reached

  lemma EditThenReach(a: Text, m: Text, b: Text, n: nat)
    requires OneEdit(a, m) && Reaches(m, b, n)
    ensures Reaches(a, b, n + 1)
  {
  }

  lemma ReachByDelete(a: Text, b: Text, n: nat)
    requires a != [] && Reaches(Init(a), b, n)
    ensures Reaches(a, b, n + 1)
  {
    assert Replaces(a, Init(a), Init(a), [], [Last(a)], []);
    EditThenReach(a, Init(a), b, n);
  }

  lemma ReachByInsert(a: Text, b: Text, n: nat)
    requires b != [] && Reaches(a, Init(b), n)
    ensures Reaches(a, b, n + 1)
  {
    var c := [Last(b)];
    assert Replaces(a, a + c, a, [], [], c);
    ReachBehind(a, Init(b), n, c);
    assert Init(b) + c == b;
    EditThenReach(a, a + c, b, n);
  }

  lemma ReachByLast(a: Text, b: Text, n: nat)
    requires a != [] && b != [] && Reaches(Init(a), Init(b), n)
    ensures Reaches(a, b, if Last(a) == Last(b) then n else n + 1)
  {
    var c, d := [Last(a)], [Last(b)];
    assert a == Init(a) + c && b == Init(b) + d;
    ReachBehind(Init(a), Init(b), n, d);
    if c != d {
      assert Replaces(a, Init(a) + d, Init(a), [], c, d);
      EditThenReach(a, Init(a) + d, b, n);
    }
  }

  lemma {:induction false} DistReached(a: Text, b: Text)
    ensures Reaches(a, b, Dist(a, b))
    decreases |a| + |b|
  {
    if a != [] && (b == [] || Dist(a, b) == Dist(Init(a), b) + 1) {
      DistReached(Init(a), b);
      ReachByDelete(a, b, Dist(Init(a), b));
    } else if b != [] && (a == [] || Dist(a, b) == Dist(a, Init(b)) + 1) {
      DistReached(a, Init(b));
      ReachByInsert(a, b, Dist(a, Init(b)));
    } else if a != [] {
      DistReached(Init(a), Init(b));
      ReachByLast(a, b, Dist(Init(a), Init(b)));
    }
  }

  /** Edits can be made in front of a fixed suffix. */
  lemma {:induction false} ReachBehind(a: Text, b: Text, n: nat, s: Text)
    requires Reaches(a, b, n)
    ensures Reaches(a + s, b + s, n)
    decreases n
  {
    if n > 0 {
      var m :| OneEdit(a, m) && Reaches(m, b, n - 1);
      var x, y, c, d :| Replaces(a, m, x, y, c, d);
      assert a + s == x + c + (y + s) && m + s == x + d + (y + s);
      assert Replaces(a + s, m + s, x, y + s, c, d);
      ReachBehind(m, b, n - 1, s);
      EditThenReach(a + s, m + s, b + s, n - 1);
    }
  }

  // ----- nothing shorter reaches

  lemma {:induction false} DistMinimal(a: Text, b: Text, n: nat)
    requires Reaches(a, b, n)
    ensures Dist(a, b) <= n
    decreases n
  {
    if n == 0 {
      DistSelf(a);
    } else {
      var m :| OneEdit(a, m) && Reaches(m, b, n - 1);
      var x, y, c, d :| Replaces(a, m, x, y, c, d);
      DistMinimal(m, b, n - 1);
      EditChangesByOne(x, c, d, y, b);
    }
  }

  lemma {:induction false} DistSelf(a: Text)
    ensures Dist(a, a) == 0
  {
    if a != [] {
      DistSelf(Init(a));
    }
  }

  /** Appending a character moves the distance by at most one. */
  lemma {:induction false} AppendChangesByOne(a: Text, c: int, b: Text)
    ensures Dist(a + [c], b) <= Dist(a, b) + 1
    ensures Dist(a, b) <= Dist(a + [c], b) + 1
    decreases |b|
  {
    assert Init(a + [c]) == a;
    if b != [] {
      AppendChangesByOne(a, c, Init(b));
      assert Dist(a, b) <= Dist(a, Init(b)) + 1;
    }
  }

  /** A single edit anywhere moves the distance by at most one. */
  lemma {:induction false} EditChangesByOne(x: Text, c: Text, d: Text, y: Text, b: Text)
    requires |c| <= 1 && |d| <= 1
    ensures Dist(x + c + y, b) <= Dist(x + d + y, b) + 1
    decreases |y| + |b|
  {
    if y == [] {
      assert x + c + y == x + c && x + d + y == x + d;
      EditAtEnd(x, c, d, b);
    } else {
      var p, q := x + c + y, x + d + y;
      assert Init(p) == x + c + Init(y) && Init(q) == x + d + Init(y);
      EditChangesByOne(x, c, d, Init(y), b);
      if b != [] {
        EditChangesByOne(x, c, d, y, Init(b));
        EditChangesByOne(x, c, d, Init(y), Init(b));
      }
    }
  }

  lemma {:induction false} EditAtEnd(x: Text, c: Text, d: Text, b: Text)
    requires |c| <= 1 && |d| <= 1
    ensures Dist(x + c, b) <= Dist(x + d, b) + 1
    decreases |b|
  {
    if c != [] && d != [] {
      assert Init(x + c) == x == Init(x + d);
      if b != [] {
        EditAtEnd(x, c, d, Init(b));
      }
    } else if c != [] {
      assert c == [c[0]] && x + d == x;
      AppendChangesByOne(x, c[0], b);
    } else if d != [] {
      assert d == [d[0]] && x + c == x;
      AppendChangesByOne(x, d[0], b);
    }
  }

  /** The recurrence is the least number of single-character edits. */
  lemma DistIsLeast(a: Text, b: Text)
    ensures IsLeast(a, b, Dist(a, b))
  {
    DistReached(a, b);
    forall n: nat | Reaches(a, b, n)
      ensures Dist(a, b) <= n
    {
      DistMinimal(a, b, n);
    }
  }

  // ----- the program

  /** Where row `j` of the table is: the two rows of `aLen + 1` entries from `base` on take
      turns. */
  function RowStart(base: nat, aLen: nat, j: nat): nat {
    if j % 2 == 1 then base + aLen + 1 else base
  }

  /** The entries of row `j` up to column `upTo` are distances of prefixes. */
  ghost predicate RowFilled(buf: seq<int>, base: nat, a: Text, b: Text, j: nat, upTo: nat)
    requires j <= |b| && upTo <= |a| && |buf| >= base + 2 * (|a| + 1)
  {
    forall k :: 0 <= k <= upTo ==> buf[RowStart(base, |a|, j) + k] == Dist(a[..k], b[..j])
  }

  /** The two-row table in `buf` from `base` on, after a swap that makes `a` the shorter text. */
  method DistBuffer(a0: Text, b0: Text, buf: array<int>, base: nat) returns (d: int)
    requires buf.Length >= base + (|a0| + 1) + (|b0| + 1)
    modifies buf
    ensures d == Dist(a0, b0)
    ensures buf[..base] == old(buf[..base])
  {
    hide Dist, RowFilled;
    var a, b := a0, b0;
    if |a| > |b| {
      a, b := b, a;
      DistSymmetric(a0, b0);
    }
    FirstRow(a, b, buf, base);
    var j := 1;
    while j <= |b|
      invariant 1 <= j <= |b| + 1
      invariant RowFilled(buf[..], base, a, b, j - 1, |a|)
      invariant buf[..base] == old(buf[..base])
    {
      NextRow(a, b, j, buf, base);
      j := j + 1;
    }
    LastCell(buf[..], base, a, b);
    d := buf[RowStart(base, |a|, |b|) + |a|];
  }

  lemma LastCell(buf: seq<int>, base: nat, a: Text, b: Text)
    requires |buf| >= base + 2 * (|a| + 1) && RowFilled(buf, base, a, b, |b|, |a|)
    ensures buf[RowStart(base, |a|, |b|) + |a|] == Dist(a, b)
  {
    hide Dist;
    assert a[..|a|] == a && b[..|b|] == b;
  }

  method FirstRow(a: Text, b: Text, buf: array<int>, base: nat)
    requires buf.Length >= base + 2 * (|a| + 1)
    modifies buf
    ensures RowFilled(buf[..], base, a, b, 0, |a|)
    ensures buf[..base] == old(buf[..base])
  {
    var i := 0;
    while i <= |a|
      invariant 0 <= i <= |a| + 1
      invariant forall k :: base <= k < base + i ==> buf[k] == k - base
      invariant buf[..base] == old(buf[..base])
    {
      buf[RowStart(base, |a|, 0) + i] := i;
      i := i + 1;
    }
  }

  method NextRow(a: Text, b: Text, j: nat, buf: array<int>, base: nat)
    requires 1 <= j <= |b| && buf.Length >= base + 2 * (|a| + 1)
    requires RowFilled(buf[..], base, a, b, j - 1, |a|)
    modifies buf
    ensures RowFilled(buf[..], base, a, b, j, |a|)
    ensures buf[..base] == old(buf[..base])
  {
    hide Dist, Min3;
    var row, above := RowStart(base, |a|, j), RowStart(base, |a|, j - 1);
    assert Dist(a[..0], b[..j]) == j by { DistOfEmpty(b[..j]); }
    buf[row] := j;
    var i := 1;
    while i <= |a|
      invariant 1 <= i <= |a| + 1
      invariant RowFilled(buf[..], base, a, b, j - 1, |a|)
      invariant RowFilled(buf[..], base, a, b, j, i - 1)
      invariant buf[..base] == old(buf[..base])
    {
      assert buf[row + i - 1] == Dist(a[..i - 1], b[..j]);
      assert buf[above + i] == Dist(a[..i], b[..j - 1]) && buf[above + i - 1] == Dist(a[..i - 1], b[..j - 1]);
      var subst := if a[i - 1] != b[j - 1] then 1 else 0;
      DistOfPrefixes(a, b, i, j);
      var v := Min3(buf[row + i - 1] + 1, buf[above + i] + 1, buf[above + i - 1] + subst);
      RowExtended(buf[..], base, a, b, j, i, v);
      buf[row + i] := v;
      i := i + 1;
    }
  }

  lemma RowExtended(buf: seq<int>, base: nat, a: Text, b: Text, j: nat, i: nat, v: nat)
    requires 1 <= j <= |b| && 1 <= i <= |a| && |buf| >= base + 2 * (|a| + 1)
    requires RowFilled(buf, base, a, b, j - 1, |a|) && RowFilled(buf, base, a, b, j, i - 1)
    requires v == Dist(a[..i], b[..j])
    ensures
      var newBuf := buf[RowStart(base, |a|, j) + i := v];
      RowFilled(newBuf, base, a, b, j - 1, |a|) && RowFilled(newBuf, base, a, b, j, i)
  {
    hide Dist;
  }

  lemma DistOfEmpty(b: Text)
    ensures Dist([], b) == |b|
  {
  }

  lemma DistOfPrefixes(a: Text, b: Text, i: nat, j: nat)
    requires 1 <= i <= |a| && 1 <= j <= |b|
    ensures Dist(a[..i], b[..j]) ==
            Min3(Dist(a[..i - 1], b[..j]) + 1, Dist(a[..i], b[..j - 1]) + 1,
                 Dist(a[..i - 1], b[..j - 1]) + if a[i - 1] != b[j - 1] then 1 else 0)
  {
    hide Dist, Min3;
    assert Init(a[..i]) == a[..i - 1] && Init(b[..j]) == b[..j - 1];
    DistUnfolds(a[..i], b[..j]);
  }

  lemma DistUnfolds(a: Text, b: Text)
    requires a != [] && b != []
    ensures Dist(a, b) ==
            Min3(Dist(Init(a), b) + 1, Dist(a, Init(b)) + 1,
                 Dist(Init(a), Init(b)) + if Last(a) == Last(b) then 0 else 1)
  {
    hide Min3, Init, Last;
  }
}
