/**
 * The string keys the code builds with template literals: an edge id
 * `final-${req}-${id}` / `cursar-${req}-${id}` and a pair key
 * `${source}-${target}` are both "left part, a dash, right part". Splitting
 * at the first dash recovers the parts whenever the left part holds no dash,
 * so under that condition distinct parts give distinct keys.
 */
module Keys {

  /** The string holds no '-'. */
  predicate NoDash(s: string)
  {
    '-' !in s
  }

  /** The template literal `${a}-${b}`. */
  function Join(a: string, b: string): string
  {
    a + "-" + b
  }

  /** Index of the first '-' in `w`, or `|w|` when there is none. */
  function DashIndex(w: string): (n: nat)
    ensures n <= |w|
    ensures n < |w| ==> w[n] == '-'
    ensures forall k :: 0 <= k < n ==> w[k] != '-'
    decreases |w|
  {
    if w == [] then 0
    else if w[0] == '-' then 0
    else 1 + DashIndex(w[1..])
  }

  /** Cuts `w` at its first dash: the inverse of `Join` (see `SplitJoin`). */
  function Split(w: string): (string, string)
  {
    var n := DashIndex(w);
    if n < |w| then (w[..n], w[n + 1..]) else (w, "")
  }

  lemma {:induction false} DashIndexJoin(a: string, b: string)
    requires NoDash(a)
    ensures DashIndex(Join(a, b)) == |a|
    decreases |a|
  {
    var w := Join(a, b);
    if a != [] {
      assert a[0] in a;
      assert w[1..] == Join(a[1..], b);
      DashIndexJoin(a[1..], b);
    }
  }

  /** Round trip: splitting a joined key gives back its parts. */
  lemma SplitJoin(a: string, b: string)
    requires NoDash(a)
    ensures Split(Join(a, b)) == (a, b)
  {
    var w := Join(a, b);
    DashIndexJoin(a, b);
    assert w[..|a|] == a;
    assert w[|a| + 1..] == b;
  }

  /** Keys with a dash-free left part are equal only when their parts are. */
  lemma JoinInjective(a: string, b: string, a': string, b': string)
    requires NoDash(a) && NoDash(a')
    requires Join(a, b) == Join(a', b')
    ensures a == a' && b == b'
  {
    SplitJoin(a, b);
    SplitJoin(a', b');
  }

  /** Without the condition two different pairs can share a key. */
  lemma DashCollision()
    ensures Join("x-y", "a") == Join("x", "y-a")
  {
  }
}
