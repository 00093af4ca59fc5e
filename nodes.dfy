/** The nodes of a Huffman tree and the bookkeeping functions the proofs use.

    A node never changes once its children are set, so the tree is a value:
    a leaf carries one character and its count, an internal node carries the
    sum of its children's counts and owns exactly two children.  A leaf's
    missing children (None in the source) are simply absent here. */
module Nodes {

  datatype Node = Leaf(ch: char, freq: nat) | Internal(freq: nat, left: Node, right: Node)

  /** The only ordering the heap uses: a node is smaller when its count is. */
  predicate Less(a: Node, b: Node) {
    a.freq < b.freq
  }

  /** Less is a strict weak order, which is what a binary heap needs. */
  lemma LessIsStrictWeakOrder(a: Node, b: Node, c: Node)
    ensures !Less(a, a)
    ensures Less(a, b) && Less(b, c) ==> Less(a, c)
    ensures !Less(a, b) && !Less(b, a) && !Less(b, c) && !Less(c, b) ==> !Less(a, c) && !Less(c, a)
  {
  }

  /** The leaves of a tree, left to right. */
  function Leaves(t: Node): (ls: seq<Node>)
    ensures |ls| >= 1
    ensures forall n :: n in ls ==> n.Leaf?
  {
    match t
    case Leaf(_, _) => [t]
    case Internal(_, l, r) => Leaves(l) + Leaves(r)
  }

  /** The leaves of a tree as a bag. */
  function LeafBag(t: Node): multiset<Node> {
    multiset(Leaves(t))
  }

  /** The characters the leaves carry, one per leaf. */
  function Symbols(t: Node): multiset<char> {
    match t
    case Leaf(c, _) => multiset{c}
    case Internal(_, l, r) => Symbols(l) + Symbols(r)
  }

  /** The character occurrences a tree accounts for: each leaf contributes its
      character as many times as its count says. */
  function Occurrences(t: Node): multiset<char> {
    match t
    case Leaf(c, f) => multiset{}[c := f]
    case Internal(_, l, r) => Occurrences(l) + Occurrences(r)
  }

  function InternalCount(t: Node): nat {
    match t
    case Leaf(_, _) => 0
    case Internal(_, l, r) => 1 + InternalCount(l) + InternalCount(r)
  }

  /** No character labels two leaves. */
  predicate NoRepeats(t: Node) {
    forall c :: Symbols(t)[c] <= 1
  }

  /** The shape every tree built by the greedy merge has: leaves count at least
      one occurrence, an internal node's count is the sum of its children's,
      and its left child (popped first) is never heavier than its right. */
  predicate WellFormed(t: Node) {
    match t
    case Leaf(_, f) => f >= 1
    case Internal(f, l, r) =>
      f == l.freq + r.freq && l.freq <= r.freq && WellFormed(l) && WellFormed(r)
  }

  /** Every node strictly below `t`. */
  function Below(t: Node): set<Node> {
    match t
    case Leaf(_, _) => {}
    case Internal(_, l, r) => {l, r} + Below(l) + Below(r)
  }

  /** A node below a node below `t` is below `t`. */
  lemma {:induction false} BelowIsTransitive(t: Node, u: Node)
    requires u in Below(t)
    ensures Below(u) <= Below(t)
  {
    match t
    case Internal(_, l, r) =>
      if u in Below(l) {
        BelowIsTransitive(l, u);
      } else if u in Below(r) {
        BelowIsTransitive(r, u);
      }
  }

  /** The mark the greedy merge leaves on every internal node: its two
      children were the lightest nodes at the time, so nothing merged
      before them, that is no node two or more levels below, outweighs
      either child. */
  predicate Greedy(t: Node) {
    match t
    case Leaf(_, _) => true
    case Internal(_, l, r) =>
      && Greedy(l) && Greedy(r)
      && (forall d :: d in Below(l) + Below(r) ==> d.freq <= l.freq && d.freq <= r.freq)
  }

  /** A tree with two or more children per internal node has one internal
      node fewer than it has leaves. */
  lemma {:induction false} InternalNodesOneFewerThanLeaves(t: Node)
    ensures InternalCount(t) == |Leaves(t)| - 1
  {
    match t
    case Leaf(_, _) =>
    case Internal(_, l, r) =>
      InternalNodesOneFewerThanLeaves(l);
      InternalNodesOneFewerThanLeaves(r);
  }

  /** Every leaf holds exactly one symbol. */
  lemma {:induction false} SymbolsCountLeaves(t: Node)
    ensures |Symbols(t)| == |Leaves(t)|
  {
    match t
    case Leaf(_, _) =>
    case Internal(_, l, r) =>
      SymbolsCountLeaves(l);
      SymbolsCountLeaves(r);
  }

  /** Frequency conservation: the count at the root of a well-formed tree is
      the number of character occurrences below it. */
  lemma {:induction false} FreqIsOccurrenceCount(t: Node)
    requires WellFormed(t)
    ensures t.freq == |Occurrences(t)|
  {
    match t
    case Leaf(c, f) =>
    case Internal(_, l, r) =>
      FreqIsOccurrenceCount(l);
      FreqIsOccurrenceCount(r);
  }

  /** The subtrees of a tree with no repeated character have none either,
      and share no character. */
  lemma ChildrenNoRepeats(t: Node)
    requires t.Internal? && NoRepeats(t)
    ensures NoRepeats(t.left) && NoRepeats(t.right)
    ensures forall c :: c in Symbols(t.left) ==> c !in Symbols(t.right)
  {
    forall c ensures Symbols(t.left)[c] <= 1 && Symbols(t.right)[c] <= 1
      && (c in Symbols(t.left) ==> c !in Symbols(t.right))
    {
      assert Symbols(t)[c] == Symbols(t.left)[c] + Symbols(t.right)[c];
    }
  }

  lemma {:induction false} LeafSymbol(t: Node, n: Node)
    requires n in Leaves(t)
    ensures n.ch in Symbols(t)
  {
    match t
    case Leaf(_, _) =>
    case Internal(_, l, r) =>
      if n in Leaves(l) { LeafSymbol(l, n); } else { LeafSymbol(r, n); }
  }

  /** Every character a tree carries is on one of its leaves. */
  lemma {:induction false} SymbolHasLeaf(t: Node, c: char)
    requires c in Symbols(t)
    ensures exists n :: n in Leaves(t) && n.ch == c
  {
    match t
    case Leaf(_, _) =>
      assert t in Leaves(t);
    case Internal(_, l, r) =>
      if c in Symbols(l) {
        SymbolHasLeaf(l, c);
      } else {
        SymbolHasLeaf(r, c);
      }
  }

  /** Only characters on leaves occur below a tree. */
  lemma {:induction false} OccurrencesOnlyOfSymbols(t: Node, c: char)
    requires c !in Symbols(t)
    ensures Occurrences(t)[c] == 0
  {
    match t
    case Leaf(_, _) =>
    case Internal(_, l, r) =>
      OccurrencesOnlyOfSymbols(l, c);
      OccurrencesOnlyOfSymbols(r, c);
  }

  /** With no repeated character, a leaf's count is the number of
      occurrences of its character below the whole tree. */
  lemma {:induction false} LeafFreqIsOccurrences(t: Node, n: Node)
    requires NoRepeats(t) && n in Leaves(t)
    ensures Occurrences(t)[n.ch] == n.freq
  {
    match t
    case Leaf(_, _) =>
    case Internal(_, l, r) =>
      ChildrenNoRepeats(t);
      if n in Leaves(l) {
        LeafFreqIsOccurrences(l, n);
        LeafSymbol(l, n);
        OccurrencesOnlyOfSymbols(r, n.ch);
      } else {
        LeafFreqIsOccurrences(r, n);
        LeafSymbol(r, n);
        OccurrencesOnlyOfSymbols(l, n.ch);
      }
  }

  // ---------------------------------------------------------------------------
  // Sums over a forest (the contents of the heap), and their invariance under
  // reordering: the heap only ever guarantees its contents as a bag.

  function Gather<U>(forest: seq<Node>, f: Node -> multiset<U>): multiset<U> {
    if forest == [] then multiset{} else f(forest[0]) + Gather(forest[1..], f)
  }

  lemma {:induction false} GatherAppend<U>(a: seq<Node>, b: seq<Node>, f: Node -> multiset<U>)
    ensures Gather(a + b, f) == Gather(a, f) + Gather(b, f)
  {
    if a == [] {
      assert a + b == b;
    } else {
      assert (a + b)[1..] == a[1..] + b;
      GatherAppend(a[1..], b, f);
    }
  }

  /** The sum over a forest depends only on the forest's bag of trees. */
  lemma {:induction false} GatherPermutation<U>(s: seq<Node>, t: seq<Node>, f: Node -> multiset<U>)
    requires multiset(s) == multiset(t)
    ensures Gather(s, f) == Gather(t, f)
    decreases |s|
  {
    if s == [] {
      assert |t| == |multiset(t)| == 0;
    } else {
      var x := s[0];
      assert x in multiset(t);
      var i :| 0 <= i < |t| && t[i] == x;
      var rest := t[..i] + t[i + 1..];
      RemoveAt(t, i);
      assert s == [x] + s[1..];
      Cancel(multiset(s[1..]), multiset(rest), x);
      GatherPermutation(s[1..], rest, f);
      GatherRemoveAt(t, i, f);
    }
  }

  lemma RemoveAt(t: seq<Node>, i: nat)
    requires i < |t|
    ensures multiset(t) == multiset(t[..i] + t[i + 1..]) + multiset{t[i]}
  {
    assert t == t[..i] + [t[i]] + t[i + 1..];
  }

  lemma Cancel<T>(a: multiset<T>, b: multiset<T>, x: T)
    requires a + multiset{x} == b + multiset{x}
    ensures a == b
  {
    forall y ensures a[y] == b[y] {
      assert (a + multiset{x})[y] == (b + multiset{x})[y];
    }
  }

  lemma GatherRemoveAt<U>(t: seq<Node>, i: nat, f: Node -> multiset<U>)
    requires i < |t|
    ensures Gather(t, f) == f(t[i]) + Gather(t[..i] + t[i + 1..], f)
  {
    assert t == t[..i] + ([t[i]] + t[i + 1..]);
    GatherAppend(t[..i], [t[i]] + t[i + 1..], f);
    assert ([t[i]] + t[i + 1..])[1..] == t[i + 1..];
    GatherAppend(t[..i], t[i + 1..], f);
  }

  /** Taking one tree out of a forest takes its share out of the sum. */
  lemma GatherSplit<U>(s: seq<Node>, x: Node, rest: seq<Node>, f: Node -> multiset<U>)
    requires multiset(s) == multiset(rest) + multiset{x}
    ensures Gather(s, f) == f(x) + Gather(rest, f)
  {
    assert multiset(s) == multiset([x] + rest);
    GatherPermutation(s, [x] + rest, f);
    assert ([x] + rest)[1..] == rest;
  }

  lemma GatherSingleton<U>(x: Node, f: Node -> multiset<U>)
    ensures Gather([x], f) == f(x)
  {
    assert [x][1..] == [];
  }

  /** A forest of leaves is its own bag of leaves. */
  lemma {:induction false} LeafBagOfLeaves(s: seq<Node>)
    requires forall n :: n in s ==> n.Leaf?
    ensures Gather(s, LeafBag) == multiset(s)
  {
    if s != [] {
      assert s == [s[0]] + s[1..];
      LeafBagOfLeaves(s[1..]);
    }
  }
}
