/**
  Exchanging two adjacent blocks of an array in place by following cycles
  (lib/util/getopt_long.c:107-157).
 */
module GetoptLong {

  import opened Arith

  // ----- gcd -----

  ghost predicate Divides(d: int, x: int) {
    exists q: int :: x == Mul(q, d)
  }

  /** x is u times a plus v times b. */
  predicate Combines(x: int, u: int, v: int, a: int, b: int) {
    x == Mul(u, a) + Mul(v, b)
  }

  lemma CombineStep(x: int, ux: int, vx: int, y: int, uy: int, vy: int, a: int, b: int, q: int)
    requires Combines(x, ux, vx, a, b) && Combines(y, uy, vy, a, b)
    ensures Combines(x - Mul(q, y), ux - Mul(q, uy), vx - Mul(q, vy), a, b)
  {
    hide Mul;
    MulAdd(ux, Mul(q, uy), a);
    MulAdd(vx, Mul(q, vy), b);
    MulAssoc(q, uy, a);
    MulAssoc(q, vy, b);
    MulComm(q, y);
    MulAdd(Mul(uy, a), Mul(vy, b), q);
    MulComm(q, Mul(uy, a));
    MulComm(q, Mul(vy, b));
  }

  lemma DividesRemainder(d: int, x: int, y: int, q: int)
    requires Divides(d, y) && Divides(d, x - Mul(q, y))
    ensures Divides(d, x)
  {
    hide Mul;
    var r :| y == Mul(r, d);
    var s :| x - Mul(q, y) == Mul(s, d);
    MulAssoc(q, r, d);
    MulAdd(Mul(q, r), s, d);
  }

  /** Whatever divides x and y divides a and b. */
  ghost predicate CommonOf(x: int, y: int, a: int, b: int) {
    forall d: int | Divides(d, x) && Divides(d, y) :: Divides(d, a) && Divides(d, b)
  }

  lemma CommonStep(x: int, y: int, a: int, b: int, q: int)
    requires CommonOf(x, y, a, b)
    ensures CommonOf(y, x - Mul(q, y), a, b)
  {
    forall d: int | Divides(d, y) && Divides(d, x - Mul(q, y)) ensures Divides(d, a) && Divides(d, b) {
      DividesRemainder(d, x, y, q);
    }
  }

  lemma DivMod(x: nat, y: nat)
    requires y > 0
    ensures 0 <= x % y < y && x % y == x - Mul(x / y, y)
  {
  }

  /** gcd: a common divisor, and an integer combination of both arguments. */
  method Gcd(a: nat, b: nat) returns (g: nat, ghost u: int, ghost v: int)
    requires b > 0
    ensures g > 0 && Divides(g, a) && Divides(g, b)
    ensures Combines(g, u, v, a, b)
  {
    hide Divides, CommonOf, Combines, Mul;
    var x, y := a, b;
    ghost var ux, vx := 1, 0;
    u, v := 0, 1;
    GcdStart(a, b);
    var c := x % y;
    DivMod(x, y);
    while c != 0
      invariant y > 0 && 0 <= c < y && c == x % y == x - Mul(x / y, y)
      invariant Combines(x, ux, vx, a, b) && Combines(y, u, v, a, b)
      invariant CommonOf(x, y, a, b)
      decreases c
    {
      ghost var q := x / y;
      CombineStep(x, ux, vx, y, u, v, a, b, q);
      CommonStep(x, y, a, b, q);
      ux, vx, u, v := u, v, ux - Mul(q, u), vx - Mul(q, v);
      x := y;
      y := c;
      c := x % y;
      DivMod(x, y);
    }
    GcdEnd(x, y, a, b);
    g := y;
  }

  lemma GcdStart(a: int, b: int)
    ensures Combines(a, 1, 0, a, b) && Combines(b, 0, 1, a, b) && CommonOf(a, b, a, b)
  {
  }

  lemma GcdEnd(x: int, y: int, a: int, b: int)
    requires y > 0 && x == Mul(x / y, y) && CommonOf(x, y, a, b)
    ensures Divides(y, a) && Divides(y, b)
  {
    assert y == Mul(1, y);
  }

  // ----- the cycles, relative to the start of the first block -----

  /** Where the element at p goes: A elements before the boundary, B after it. */
  function Step(A: nat, B: nat, p: int): int {
    if p >= A then p - A else p + B
  }

  /** The position after j steps. */
  function Pos(A: nat, B: nat, p: int, j: nat): int {
    if j == 0 then p else Step(A, B, Pos(A, B, p, j - 1))
  }

  /** How often the first j steps went back across the boundary. */
  function Wraps(A: nat, B: nat, p: int, j: nat): nat {
    if j == 0 then 0 else Wraps(A, B, p, j - 1) + (if Pos(A, B, p, j - 1) >= A then 1 else 0)
  }

  lemma {:induction false} PosForm(A: nat, B: nat, p: int, j: nat)
    requires 0 <= p < A + B
    ensures 0 <= Pos(A, B, p, j) < A + B
    ensures Pos(A, B, p, j) == p + Mul(j, B) - Mul(Wraps(A, B, p, j), A + B)
  {
    hide Mul;
    if j > 0 {
      PosForm(A, B, p, j - 1);
      var w, n := Wraps(A, B, p, j - 1), A + B;
      MulAdd(j - 1, 1, B);
      MulAdd(w, 1, n);
      MulOne(B);
      MulOne(n);
    } else {
      MulOne(B);
      MulOne(A + B);
    }
  }

  /** The numbers that describe the cycles: g cycles of length L, where g = u A + v B. */
  predicate Cycles(A: nat, B: nat, g: nat, L: nat, a: nat, b: nat, u: int, v: int) {
    g > 0 && L > 0 && B > 0 && A == Mul(a, g) && B == Mul(b, g) && L == a + b && Combines(g, u, v, A, B)
  }

  /** Two positions that differ by a multiple of the range are the same. */
  lemma SamePosition(x: int, y: int, n: nat, z: int)
    requires 0 <= x < n && 0 <= y < n && x - y == Mul(z, n)
    ensures x == y
  {
    hide Mul;
    SmallMultiple(z, n);
    MulOne(n);
  }

  lemma WholeCycle(A: nat, B: nat, g: nat, L: nat, a: nat, b: nat, u: int, v: int)
    requires Cycles(A, B, g, L, a, b, u, v)
    ensures Mul(L, g) == A + B && Mul(L, B) == Mul(b, A + B)
  {
    hide Mul;
    MulAdd(a, b, g);
    MulAssoc(L, b, g);
    MulAssoc(b, L, g);
    MulComm(L, b);
  }

  /** After L steps a cycle is back at its start. */
  lemma CycleCloses(A: nat, B: nat, g: nat, L: nat, a: nat, b: nat, u: int, v: int, p: nat)
    requires Cycles(A, B, g, L, a, b, u, v) && p < A + B
    ensures Pos(A, B, p, L) == p
  {
    hide Pos, Wraps, Mul;
    WholeCycle(A, B, g, L, a, b, u, v);
    PosForm(A, B, p, L);
    var w, n := Wraps(A, B, p, L), A + B;
    MulAdd(b, w, n);
    SamePosition(Pos(A, B, p, L), p, n, b - w);
  }

  /** If two step counts of one cycle meet, their difference times g is a multiple of the range. */
  lemma MeetingSteps(A: nat, B: nat, g: nat, u: int, v: int, d: int, W: int)
    requires Combines(g, u, v, A, B) && Mul(d, B) == Mul(W, A + B)
    ensures Mul(d, g) == Mul(Mul(u, d - W) + Mul(v, W), A + B)
  {
    hide Mul;
    var n := A + B;
    MulComm(d, n);
    MulComm(d, A);
    MulComm(d, B);
    MulAdd(A, B, d);
    MulAdd(d, W, n);
    assert Mul(d, A) == Mul(d - W, n);
    MulComm(d, g);
    MulAdd(Mul(u, A), Mul(v, B), d);
    Swap3(u, A, d);
    Swap3(v, B, d);
    assert Mul(d, g) == Mul(u, Mul(d, A)) + Mul(v, Mul(d, B));
    MulAssoc(u, d - W, n);
    MulAssoc(v, W, n);
    MulAdd(Mul(u, d - W), Mul(v, W), n);
  }

  lemma Swap3(u: int, x: int, d: int)
    ensures Mul(Mul(u, x), d) == Mul(u, Mul(d, x))
  {
    hide Mul;
    MulAssoc(u, x, d);
    MulComm(x, d);
  }

  /** The cycles starting at A, A + 1, ..., A + g - 1 are disjoint. */
  lemma StartsApart(A: nat, B: nat, g: nat, L: nat, a: nat, b: nat, u: int, v: int, i: nat, i': nat, j: nat, j': nat)
    requires Cycles(A, B, g, L, a, b, u, v) && i < g && i' < g && i < B && i' < B
    requires Pos(A, B, A + i, j) == Pos(A, B, A + i', j')
    ensures i == i'
    ensures Mul(j - j', B) == Mul(Wraps(A, B, A + i, j) - Wraps(A, B, A + i', j'), A + B)
  {
    hide Pos, Wraps, Mul;
    PosForm(A, B, A + i, j);
    PosForm(A, B, A + i', j');
    WholeCycle(A, B, g, L, a, b, u, v);
    var w: int, w': int, n := Wraps(A, B, A + i, j), Wraps(A, B, A + i', j'), A + B;
    var d, W := j - j', w - w';
    MulAdd(j, j', B);
    MulAdd(w, w', n);
    assert i - i' == Mul(W, n) - Mul(d, B);
    MulAssoc(W, L, g);
    MulAssoc(d, b, g);
    MulAdd(Mul(W, L), Mul(d, b), g);
    SmallMultiple(Mul(W, L) - Mul(d, b), g);
    MulOne(g);
  }

  /** And each of them visits L distinct positions. */
  lemma CyclesDisjoint(A: nat, B: nat, g: nat, L: nat, a: nat, b: nat, u: int, v: int, i: nat, i': nat, j: nat, j': nat)
    requires Cycles(A, B, g, L, a, b, u, v) && i < g && i' < g && i < B && i' < B && j < L && j' < L
    requires Pos(A, B, A + i, j) == Pos(A, B, A + i', j')
    ensures i == i' && j == j'
  {
    hide Pos, Wraps, Mul;
    StartsApart(A, B, g, L, a, b, u, v, i, i', j, j');
    var d, W := j - j', Wraps(A, B, A + i, j) - Wraps(A, B, A + i', j');
    MeetingSteps(A, B, g, u, v, d, W);
    WholeCycle(A, B, g, L, a, b, u, v);
    var z := Mul(u, d - W) + Mul(v, W);
    MulAssoc(z, L, g);
    CancelFactor(d, Mul(z, L), g);
    SmallMultiple(z, L);
    MulOne(L);
  }

  /** A multiple r of g is, up to whole ranges, r (v - u) steps. */
  lemma StepsFor(A: nat, B: nat, g: nat, u: int, v: int, r: int)
    requires Combines(g, u, v, A, B)
    ensures Mul(r, g) == Mul(Mul(r, u), A + B) + Mul(Mul(r, v - u), B)
  {
    hide Mul;
    MulComm(r, g);
    MulAdd(Mul(u, A), Mul(v, B), r);
    Swap3(u, A, r);
    Swap3(v, B, r);
    Swap3(r, u, A);
    MulAssoc(r, u, A);
    MulAssoc(r, v, B);
    MulAssoc(u, r, A);
    MulAssoc(v, r, B);
    MulComm(r, u);
    MulComm(r, v);
    MulComm(r, v - u);
    MulAdd(v, u, r);
    MulAdd(Mul(r, v), Mul(r, u), B);
    MulComm(Mul(r, u), A + B);
    MulAdd(A, B, Mul(r, u));
    MulComm(A, Mul(r, u));
    MulComm(B, Mul(r, u));
  }

  /** Every position of the range is on one of the g cycles. */
  lemma CyclesCover(A: nat, B: nat, g: nat, L: nat, a: nat, b: nat, u: int, v: int, q: nat) returns (i: nat, j: nat)
    requires Cycles(A, B, g, L, a, b, u, v) && q < A + B
    ensures i < g && j < L && i < B && Pos(A, B, A + i, j) == q
  {
    hide Pos, Wraps, Mul;
    var n := A + B;
    var r := (q - A) / g;
    i := (q - A) % g;
    EuclidDivision(q - A, g);
    var J := Mul(r, v - u);
    var y := J / L;
    j := J % L;
    EuclidDivision(J, L);
    BlockFits(B, g, b, i);
    WholeCycle(A, B, g, L, a, b, u, v);
    StepsFor(A, B, g, u, v, r);
    MulAdd(Mul(y, L), j, B);
    MulAssoc(y, L, B);
    MulAssoc(y, b, n);
    PosForm(A, B, A + i, j);
    var w := Wraps(A, B, A + i, j);
    MulAdd(Mul(r, u), Mul(y, b), n);
    MulAdd(Mul(r, u) + Mul(y, b), w, n);
    SamePosition(q, Pos(A, B, A + i, j), n, Mul(r, u) + Mul(y, b) + w);
  }

  lemma BlockFits(B: nat, g: nat, b: nat, i: nat)
    requires g > 0 && B > 0 && B == Mul(b, g) && i < g
    ensures g <= B && i < B
  {
    hide Mul;
    if b == 0 { MulOne(g); }
    MulAdd(b - 1, 1, g);
    MulOne(g);
    MulNat(b - 1, g);
  }

  // ----- the exchange -----

  predicate Distinct(path: seq<int>) {
    forall k, l | 0 <= k < l < |path| :: path[k] != path[l]
  }

  /** A closed sequence of distinct positions, each the step of the one before. */
  predicate IsCycle(A: nat, B: nat, path: seq<int>) {
    path != [] &&
    (forall k | 0 <= k < |path| :: 0 <= path[k] < A + B) &&
    Distinct(path) &&
    (forall k | 0 <= k < |path| - 1 :: Step(A, B, path[k]) == path[k + 1]) &&
    Step(A, B, path[|path| - 1]) == path[0]
  }

  predicate InRange(path: seq<int>, s: nat, size: nat) {
    forall k | 0 <= k < |path| :: 0 <= s + path[k] < size
  }

  /** The cycle's positions in the array after j swaps. */
  ghost predicate Swapped<T>(now: seq<T>, before: seq<T>, s: nat, path: seq<int>, j: nat)
    requires InRange(path, s, |before|)
  {
    |now| == |before| && path != [] && j <= |path| &&
    (forall k | 1 <= k <= j && k < |path| :: now[s + path[k]] == before[s + path[k - 1]]) &&
    (forall k | j < k < |path| :: now[s + path[k]] == before[s + path[k]]) &&
    now[s + path[0]] == before[s + path[if j < |path| then j else |path| - 1]] &&
    (forall x | 0 <= x < |now| && x - s !in path :: now[x] == before[x])
  }

  /** One swap of the position reached with the start of the cycle. */
  lemma SwapStep<T>(now: seq<T>, before: seq<T>, s: nat, path: seq<int>, j: nat, pos: nat)
    requires Distinct(path) && InRange(path, s, |before|)
    requires Swapped(now, before, s, path, j) && j < |path|
    requires pos == s + path[if j + 1 < |path| then j + 1 else 0]
    ensures |now| == |before| && 0 <= s + path[0] < |before| && pos < |before|
    ensures Swapped(now[pos := now[s + path[0]]][s + path[0] := now[pos]], before, s, path, j + 1)
  {
    if j + 1 < |path| {
      SwapMiddle(now, before, s, path, j);
    } else {
      assert now[pos := now[pos]][pos := now[pos]] == now;
    }
  }

  lemma SwapMiddle<T>(now: seq<T>, before: seq<T>, s: nat, path: seq<int>, j: nat)
    requires Distinct(path) && InRange(path, s, |before|)
    requires Swapped(now, before, s, path, j) && j + 1 < |path|
    ensures var c, pos := s + path[0], s + path[j + 1];
            |now| == |before| && Swapped(now[pos := now[c]][c := now[pos]], before, s, path, j + 1)
  {
    var c, pos := s + path[0], s + path[j + 1];
    var now' := now[pos := now[c]][c := now[pos]];
    assert path[0] != path[j + 1] && path[0] in path && path[j + 1] in path;
    forall k | 1 <= k < |path| && k != j + 1 ensures now'[s + path[k]] == now[s + path[k]] {
      Apart(path, 0, k);
      Apart(path, j + 1, k);
    }
  }

  lemma Apart(path: seq<int>, k: nat, l: nat)
    requires Distinct(path) && k < |path| && l < |path| && k != l
    ensures path[k] != path[l]
  {
  }

  lemma SwapStart<T>(before: seq<T>, s: nat, path: seq<int>)
    requires path != [] && InRange(path, s, |before|)
    ensures Swapped(before, before, s, path, 0)
  {
  }

  /** The inner loop: swapping through one cycle moves every element on it one step and touches nothing else. */
  method RunCycle<T>(a: array<T>, s: nat, A: nat, B: nat, L: nat, cstart: nat, ghost path: seq<int>)
    requires s + A + B <= a.Length && IsCycle(A, B, path) && L == |path| && cstart == s + path[0]
    modifies a
    ensures Swapped(a[..], old(a[..]), s, path, L)
  {
    hide IsCycle, Distinct, InRange, Swapped;
    var pos := cstart;
    ghost var before := a[..];
    CycleFits(A, B, path, s, a.Length);
    SwapStart(before, s, path);
    for j := 0 to L
      invariant pos == s + (if j < L then path[j] else path[0])
      invariant Swapped(a[..], before, s, path, j)
    {
      CycleNext(A, B, path, j);
      if pos >= s + A {
        pos := pos - A;
      } else {
        pos := pos + B;
      }
      ghost var now := a[..];
      SwapStep(now, before, s, path, j, pos);
      var swap := a[pos];
      a[pos] := a[cstart];
      a[cstart] := swap;
      assert a[..] == now[pos := now[cstart]][cstart := now[pos]];
    }
  }

  lemma CycleFits(A: nat, B: nat, path: seq<int>, s: nat, size: nat)
    requires IsCycle(A, B, path) && s + A + B <= size
    ensures path != [] && Distinct(path) && InRange(path, s, size)
  {
  }

  lemma CycleNext(A: nat, B: nat, path: seq<int>, j: nat)
    requires IsCycle(A, B, path) && j < |path|
    ensures var next := path[if j + 1 < |path| then j + 1 else 0];
            0 <= path[j] < A + B && 0 <= next < A + B && next == Step(A, B, path[j])
  {
  }

  /** The i-th cycle as a sequence. */
  function Path(A: nat, B: nat, L: nat, c: int): (r: seq<int>)
    ensures |r| == L && forall k | 0 <= k < L :: r[k] == Pos(A, B, c, k)
  {
    seq(L, k requires 0 <= k < L => Pos(A, B, c, k))
  }

  lemma PathIsCycle(A: nat, B: nat, g: nat, L: nat, a: nat, b: nat, u: int, v: int, i: nat)
    requires Cycles(A, B, g, L, a, b, u, v) && i < g && i < B
    ensures IsCycle(A, B, Path(A, B, L, A + i))
  {
    hide Mul;
    var path := Path(A, B, L, A + i);
    forall k | 0 <= k < L ensures 0 <= path[k] < A + B { PosForm(A, B, A + i, k); }
    forall k, l | 0 <= k < l < L ensures path[k] != path[l] {
      if path[k] == path[l] { CyclesDisjoint(A, B, g, L, a, b, u, v, i, i, k, l); }
    }
    CycleCloses(A, B, g, L, a, b, u, v, A + i);
    assert path[0] == A + i;
  }

  /** The element k steps along cycle c has moved one step if that cycle is among the first i, else not at all. */
  ghost predicate MovedAt<T>(now: seq<T>, before: seq<T>, s: nat, A: nat, B: nat, i: nat, c: nat, k: nat)
    requires s + A + B <= |before| == |now|
  {
    var p := Pos(A, B, A + c, k);
    0 <= p < A + B && 0 <= Step(A, B, p) < A + B &&
    if c < i then now[s + Step(A, B, p)] == before[s + p] else now[s + p] == before[s + p]
  }

  /** After i cycles: what the first i cycles hold has moved one step, the rest is untouched. */
  ghost predicate Exchanged<T>(now: seq<T>, before: seq<T>, s: nat, A: nat, B: nat, g: nat, L: nat, i: nat)
    requires s + A + B <= |before|
  {
    |now| == |before| &&
    (forall x | 0 <= x < |now| && !(s <= x < s + A + B) :: now[x] == before[x]) &&
    (forall c: nat, k: nat | c < g && k < L :: MovedAt(now, before, s, A, B, i, c, k))
  }

  lemma ExchangeStart<T>(before: seq<T>, s: nat, A: nat, B: nat, g: nat, L: nat)
    requires s + A + B <= |before| && g <= B
    ensures Exchanged(before, before, s, A, B, g, L, 0)
  {
    forall c: nat, k: nat | c < g && k < L ensures MovedAt(before, before, s, A, B, 0, c, k) {
      PosForm(A, B, A + c, k);
    }
  }

  lemma ExchangeStep<T>(now: seq<T>, after: seq<T>, before: seq<T>, s: nat, A: nat, B: nat, g: nat, L: nat, i: nat, i': nat,
                        a: nat, b: nat, u: int, v: int)
    requires Cycles(A, B, g, L, a, b, u, v) && g <= B && i < g && i' == i + 1
    requires s + A + B <= |before| && Exchanged(now, before, s, A, B, g, L, i)
    requires var path := Path(A, B, L, A + i);
             IsCycle(A, B, path) && Swapped(after, now, s, path, L)
    ensures Exchanged(after, before, s, A, B, g, L, i')
  {
    hide Cycles, Step, Pos;
    var path := Path(A, B, L, A + i);
    forall c: nat, k: nat | c < g && k < L ensures MovedAt(after, before, s, A, B, i', c, k) {
      assert MovedAt(now, before, s, A, B, i, c, k);
      MovedStep(now, after, before, s, A, B, g, L, i, c, k, a, b, u, v);
    }
    forall x | 0 <= x < |after| && !(s <= x < s + A + B) ensures after[x] == before[x] {
      assert x - s !in path;
    }
  }

  lemma MovedStep<T>(now: seq<T>, after: seq<T>, before: seq<T>, s: nat, A: nat, B: nat, g: nat, L: nat, i: nat, c: nat, k: nat,
                     a: nat, b: nat, u: int, v: int)
    requires Cycles(A, B, g, L, a, b, u, v) && g <= B && i < g && c < g && k < L
    requires s + A + B <= |before| == |now| && MovedAt(now, before, s, A, B, i, c, k)
    requires var path := Path(A, B, L, A + i);
             IsCycle(A, B, path) && Swapped(after, now, s, path, L)
    ensures MovedAt(after, before, s, A, B, i + 1, c, k)
  {
    hide Cycles, Step, Pos, IsCycle;
    var path := Path(A, B, L, A + i);
    var p := Pos(A, B, A + c, k);
    if c == i {
      assert path[k] == p;
      StepOnCycle(now, after, s, A, B, path, k);
    } else {
      OtherCycle(A, B, g, L, a, b, u, v, i, c, k);
      OtherStep(A, B, g, L, a, b, u, v, i, c, k);
      assert s + p - s == p && s + Step(A, B, p) - s == Step(A, B, p);
    }
  }

  /** On the cycle just run, every element moved one step. */
  lemma StepOnCycle<T>(now: seq<T>, after: seq<T>, s: nat, A: nat, B: nat, path: seq<int>, k: nat)
    requires s + A + B <= |now| && IsCycle(A, B, path) && k < |path| && Swapped(after, now, s, path, |path|)
    ensures 0 <= path[k] < A + B && 0 <= Step(A, B, path[k]) < A + B
    ensures after[s + Step(A, B, path[k])] == now[s + path[k]]
  {
    if k + 1 < |path| {
      assert Step(A, B, path[k]) == path[k + 1];
      assert after[s + path[k + 1]] == now[s + path[k + 1 - 1]];
    }
  }

  lemma OtherCycle(A: nat, B: nat, g: nat, L: nat, a: nat, b: nat, u: int, v: int, i: nat, c: nat, k: nat)
    requires Cycles(A, B, g, L, a, b, u, v) && g <= B && i < g && c < g && c != i && k < L
    ensures Pos(A, B, A + c, k) !in Path(A, B, L, A + i)
  {
    hide Cycles, Pos;
    var path := Path(A, B, L, A + i);
    if Pos(A, B, A + c, k) in path {
      var j :| 0 <= j < L && path[j] == Pos(A, B, A + c, k);
      CyclesDisjoint(A, B, g, L, a, b, u, v, c, i, k, j);
    }
  }

  lemma OtherStep(A: nat, B: nat, g: nat, L: nat, a: nat, b: nat, u: int, v: int, i: nat, c: nat, k: nat)
    requires Cycles(A, B, g, L, a, b, u, v) && g <= B && i < g && c < g && c != i && k < L
    ensures Step(A, B, Pos(A, B, A + c, k)) !in Path(A, B, L, A + i)
  {
    hide Cycles, Step;
    if k + 1 < L {
      OtherCycle(A, B, g, L, a, b, u, v, i, c, k + 1);
    } else {
      CycleCloses(A, B, g, L, a, b, u, v, A + c);
      OtherCycle(A, B, g, L, a, b, u, v, i, c, 0);
    }
  }

  /** When all cycles have run, the blocks have changed places. */
  lemma ExchangeEnd<T>(now: seq<T>, before: seq<T>, s: nat, A: nat, B: nat, g: nat, L: nat, a: nat, b: nat, u: int, v: int)
    requires Cycles(A, B, g, L, a, b, u, v) && s + A + B <= |before| && Exchanged(now, before, s, A, B, g, L, g)
    ensures now == before[..s] + before[s + A..s + A + B] + before[s..s + A] + before[s + A + B..]
  {
    hide Cycles, Pos;
    forall p: nat | p < A + B ensures now[s + Step(A, B, p)] == before[s + p] {
      var i, j := CyclesCover(A, B, g, L, a, b, u, v, p);
      assert MovedAt(now, before, s, A, B, g, i, j);
    }
    var e := s + A + B;
    forall x | s <= x < s + B ensures now[x] == before[x + A] { assert Step(A, B, x - s + A) == x - s; }
    forall x | s + B <= x < e ensures now[x] == before[x - B] { assert Step(A, B, x - s - B) == x - s; }
  }

  /**
    permute_args: the block of nonoptions and the block of options after it
    change places, each keeps its order, and nothing outside them moves.
   */
  method PermuteArgs<T>(panonoptStart: nat, panonoptEnd: nat, optEnd: nat, nargv: array<T>)
    requires panonoptStart <= panonoptEnd < optEnd <= nargv.Length
    modifies nargv
    ensures nargv[..] == old(nargv[..panonoptStart] + nargv[panonoptEnd..optEnd] + nargv[panonoptStart..panonoptEnd] + nargv[optEnd..])
  {
    var nnonopts, nopts := panonoptEnd - panonoptStart, optEnd - panonoptEnd;
    var ncycle;
    ghost var u, v;
    hide Exchanged, Cycles, IsCycle, Path, Divides, Combines, Swapped;
    ncycle, u, v := Gcd(nnonopts, nopts);
    var cyclelen := (optEnd - panonoptStart) / ncycle;
    ghost var a, b := Parameters(nnonopts, nopts, ncycle, cyclelen, u, v);
    ghost var before := nargv[..];
    ExchangeStart(before, panonoptStart, nnonopts, nopts, ncycle, cyclelen);
    for i := 0 to ncycle
      invariant Exchanged(nargv[..], before, panonoptStart, nnonopts, nopts, ncycle, cyclelen, i)
    {
      ghost var path, now := Path(nnonopts, nopts, cyclelen, nnonopts + i), nargv[..];
      PathIsCycle(nnonopts, nopts, ncycle, cyclelen, a, b, u, v, i);
      assert path[0] == nnonopts + i by { PathStarts(nnonopts, nopts, cyclelen, nnonopts + i, a, b, ncycle, u, v); }
      RunCycle(nargv, panonoptStart, nnonopts, nopts, cyclelen, panonoptEnd + i, path);
      ExchangeStep(now, nargv[..], before, panonoptStart, nnonopts, nopts, ncycle, cyclelen, i, i + 1, a, b, u, v);
    }
    ExchangeEnd(nargv[..], before, panonoptStart, nnonopts, nopts, ncycle, cyclelen, a, b, u, v);
  }

  lemma PathStarts(A: nat, B: nat, L: nat, c: int, a: nat, b: nat, g: nat, u: int, v: int)
    requires Cycles(A, B, g, L, a, b, u, v)
    ensures L > 0 && Path(A, B, L, c)[0] == c
  {
  }

  /** The numbers gcd and the division give describe the cycles. */
  lemma Parameters(A: nat, B: nat, g: nat, L: nat, u: int, v: int) returns (a: nat, b: nat)
    requires B > 0 && g > 0 && Divides(g, A) && Divides(g, B) && Combines(g, u, v, A, B) && L == (A + B) / g
    ensures Cycles(A, B, g, L, a, b, u, v) && g <= B
  {
    hide Mul;
    var x: int :| A == Mul(x, g);
    var y: int :| B == Mul(y, g);
    Quotient(x, g);
    Quotient(y, g);
    a, b := x, y;
    MulAdd(a, b, g);
    EuclidDivision(A + B, g);
    var r := (A + B) % g;
    MulAdd(a + b, L, g);
    SmallMultiple(a + b - L, g);
    BlockFits(B, g, b, 0);
    if b == 0 { MulOne(g); }
  }
}
