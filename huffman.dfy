/** The Huffman coding engine: an object that keeps the code table, the
    reverse table and the root of the last tree it built, and runs the
    pipeline count, heap, merge, code walk, join; plus the bit-by-bit
    decoder over its reverse table. */
module Huffman {
  import opened Wrappers
  import opened Nodes
  import opened HeapQ
  import opened Codes

  /** The one failure of the pipeline: reading the top of an empty heap. */
  datatype Error = IndexError

  function Distinct(text: string): set<char> {
    set c | c in text
  }

  lemma NothingDistinctInEmpty(text: string)
    ensures text == [] <==> Distinct(text) == {}
  {
    if text != [] {
      assert text[0] in Distinct(text);
    }
  }

  /** What the pipeline builds for `text`: a tree the merge loop builds from
      the text's leaves, which therefore fits the text's counts. */
  ghost predicate IsHuffmanTreeFor(t: Node, text: string) {
    && MergeBuilds(multiset(TextLeaves(text)), t)
    && FitsCounts(t, text)
  }

  /** A well-formed tree whose leaves carry each distinct character of the
      text exactly once and account for every occurrence of it, and whose
      every parent joined two nodes that nothing merged earlier outweighs. */
  ghost predicate FitsCounts(t: Node, text: string) {
    && WellFormed(t)
    && Greedy(t)
    && Occurrences(t) == multiset(text)
    && Symbols(t) == multiset(Distinct(text))
  }

  /** One leaf per distinct character of the text, carrying its count. */
  function TextLeaves(text: string): set<Node> {
    set c | c in text :: Leaf(c, multiset(text)[c])
  }

  /** The leaves pushed for the entries of `frequency` whose character is in `done`. */
  function LeavesFor(frequency: map<char, nat>, done: set<char>): set<Node> {
    set c | c in done && c in frequency :: Leaf(c, frequency[c])
  }

  /** `n` is a node of least count in `bag`: what heappop may return. */
  ghost predicate LightestIn(n: Node, bag: multiset<Node>) {
    n in bag && forall m :: m in bag ==> n.freq <= m.freq
  }

  /** The heap's contents after one round of the merge loop has popped `n1`,
      then `n2`, and pushed their parent. */
  function MergeOnce(bag: multiset<Node>, n1: Node, n2: Node): multiset<Node> {
    bag - multiset{n1} - multiset{n2} + multiset{Internal(n1.freq + n2.freq, n1, n2)}
  }

  /** The trees the merge loop can end with when the heap holds `bag`: a
      lone node is itself the tree; from two nodes on, a lightest node and a
      lightest of the rest are joined and the loop goes on.  Which of several
      equally light nodes is taken first is left open, as heapq's tie order
      is not part of this model. */
  ghost predicate MergeBuilds(bag: multiset<Node>, t: Node)
    decreases |bag|, 1
  {
    if |bag| <= 1 then bag == multiset{t} else MergesOnward(bag, t)
  }

  /** One round of the merge loop, then the rest of it. */
  ghost predicate MergesOnward(bag: multiset<Node>, t: Node)
    decreases |bag|, 0
  {
    exists n1, n2 ::
      && LightestIn(n1, bag) && LightestIn(n2, bag - multiset{n1})
      && MergeBuilds(MergeOnce(bag, n1, n2), t)
  }

  class HuffmanCoding {
    var codes: map<char, string>
    var reverseMapping: map<string, char>
    var root: Option<Node>

    constructor ()
      ensures codes == map[] && reverseMapping == map[] && root == None
    {
      codes := map[];
      reverseMapping := map[];
      root := None;
    }

    /** Counts each character of the text. */
    method BuildFrequencyDict(text: string) returns (frequency: map<char, nat>)
      ensures frequency.Keys == Distinct(text)
      ensures forall c :: c in frequency ==> frequency[c] == multiset(text)[c] >= 1
    {
      frequency := map[];
      for i := 0 to |text|
        invariant frequency.Keys == Distinct(text[..i])
        invariant forall c :: c in frequency ==> frequency[c] == multiset(text[..i])[c]
      {
        assert text[..i + 1] == text[..i] + [text[i]];
        var c := text[i];
        frequency := frequency[c := (if c in frequency then frequency[c] else 0) + 1];
      }
      assert text[..|text|] == text;
    }

    /** Pushes one leaf per entry of the frequency table. */
    method BuildHeap(frequency: map<char, nat>) returns (heap: seq<Node>)
      ensures IsMinHeap(heap)
      ensures |heap| == |frequency|
      ensures forall n :: n in heap ==> n.Leaf? && n.ch in frequency && n.freq == frequency[n.ch]
      ensures forall c :: c in frequency ==> Leaf(c, frequency[c]) in heap
      ensures multiset(heap) == multiset(LeavesFor(frequency, frequency.Keys))
      ensures Gather(heap, Symbols) == multiset(frequency.Keys)
      ensures forall c :: Gather(heap, Occurrences)[c] == if c in frequency then frequency[c] else 0
    {
      heap := [];
      var pending := frequency.Keys;
      ghost var done: set<char> := {};
      NothingPushedYet(frequency);
      while pending != {}
        invariant pending <= frequency.Keys && done !! pending && done + pending == frequency.Keys
        invariant IsMinHeap(heap)
        invariant |heap| + |pending| == |frequency|
        invariant HoldsLeavesOf(heap, frequency, done)
        decreases pending
      {
        var c :| c in pending;
        var node := Leaf(c, frequency[c]);
        var pushed := HeapPush(heap, node);
        PushKeepsLeavesOf(heap, frequency, done, c, pushed);
        heap, pending, done := pushed, pending - {c}, done + {c};
      }
      assert done == frequency.Keys;
      AllLeavesPushed(heap, frequency);
    }

    /** The greedy loop: while more than one node is left, pops the two
        smallest and pushes their parent (first popped on the left); the
        last node becomes the root.  An empty heap fails at its top. */
    method MergeNodes(heap: seq<Node>) returns (r: Result<Node, Error>)
      requires IsMinHeap(heap)
      modifies this`root
      ensures heap == [] ==> r == Failure(IndexError) && root == old(root)
      ensures heap != [] ==> r.Success? && root == Some(r.value)
      ensures |heap| == 1 ==> r == Success(heap[0])
      ensures r.Success? && (forall n :: n in heap ==> n.Leaf?) ==> multiset(Leaves(r.value)) == multiset(heap)
      ensures r.Success? ==> Symbols(r.value) == Gather(heap, Symbols)
      ensures r.Success? ==> Occurrences(r.value) == Gather(heap, Occurrences)
      ensures r.Success? && (forall n :: n in heap ==> WellFormed(n)) ==> WellFormed(r.value)
      ensures r.Success? && Settled(heap) ==> Greedy(r.value)
      ensures r.Success? ==> MergeBuilds(multiset(heap), r.value)
    {
      var h := heap;
      while |h| > 1
        invariant root == old(root)
        invariant IsMinHeap(h)
        invariant |h| <= |heap| && (heap != [] ==> h != [])
        invariant h == heap || |h| < |heap|
        invariant SameContents(h, heap)
        invariant Settled(heap) ==> Settled(h)
        invariant BuildsLike(h, heap)
        decreases |h|
      {
        var node1, h1 := HeapPop(h);
        var node2, h2 := HeapPop(h1);
        var merged := Internal(node1.freq + node2.freq, node1, node2);
        var h3 := HeapPush(h2, merged);
        MergeRoundKeeps(heap, h, node1, h1, node2, h2, merged, h3);
        h := h3;
      }
      if h == [] {
        r := Failure(IndexError);
        return;
      }
      RootHasContents(heap, h);
      LastNodeIsBuilt(h, heap);
      root := Some(h[0]);
      r := Success(h[0]);
    }

    /** The recursive walk: a leaf records its code and the reverse entry;
        an internal node walks left with "0" appended, then right with "1".
        Entries already in the tables stay unless overwritten. */
    method BuildCodesHelper(node: Node, currentCode: string)
      modifies this`codes, this`reverseMapping
      ensures codes == old(codes) + CodeTable(node, currentCode)
      ensures reverseMapping == old(reverseMapping) + ReverseTable(node, currentCode)
      decreases node
    {
      match node
      case Leaf(c, _) =>
        codes := codes[c := currentCode];
        reverseMapping := reverseMapping[currentCode := c];
      case Internal(_, l, r) =>
        ghost var codes0, reverse0 := codes, reverseMapping;
        BuildCodesHelper(l, currentCode + "0");
        BuildCodesHelper(r, currentCode + "1");
        UnionAssoc(codes0, CodeTable(l, currentCode + "0"), CodeTable(r, currentCode + "1"));
        UnionAssoc(reverse0, ReverseTable(l, currentCode + "0"), ReverseTable(r, currentCode + "1"));
    }

    method BuildCodes(node: Node)
      modifies this`codes, this`reverseMapping
      ensures root == old(root)
      ensures codes == old(codes) + CodeTable(node, [])
      ensures reverseMapping == old(reverseMapping) + ReverseTable(node, [])
    {
      BuildCodesHelper(node, []);
    }

    /** The first three steps of compress: count, heap, merge.  The tree it
        leaves in `root` is a Huffman tree for the text. */
    method BuildTree(text: string) returns (r: Result<Node, Error>)
      modifies this`root
      ensures text == [] ==> r == Failure(IndexError) && root == old(root)
      ensures text != [] ==> r.Success? && root == Some(r.value) && IsHuffmanTreeFor(r.value, text)
    {
      var frequency := BuildFrequencyDict(text);
      var heap := BuildHeap(frequency);
      assert text == [] <==> heap == [] by {
        NothingDistinctInEmpty(text);
        assert |heap| == |frequency| == |frequency.Keys|;
      }
      r := MergeNodes(heap);
      if r.Success? {
        PipelineBuildsHuffmanTree(text, frequency, heap, r.value);
      }
    }

    /** Builds the tree, walks it for codes and joins the codes of the
        text's characters.  The tables are extended, never cleared; the
        stale entries they may hold play no part in the result. */
    method Compress(text: string) returns (r: Result<string, Error>)
      modifies this`codes, this`reverseMapping, this`root
      ensures text == [] ==> r == Failure(IndexError) && root == old(root)
      ensures text == [] ==> codes == old(codes) && reverseMapping == old(reverseMapping)
      ensures text != [] ==> root.Some? && IsHuffmanTreeFor(root.value, text)
      ensures text != [] ==> codes == old(codes) + CodeTable(root.value, [])
      ensures text != [] ==> reverseMapping == old(reverseMapping) + ReverseTable(root.value, [])
      ensures text != [] ==> (forall c :: c in text ==> c in codes) && r == Success(Encode(text, codes))
      ensures text != [] ==> (
        && (forall c :: c in text ==> c in CodeTable(root.value, []))
        && r == Success(Encode(text, CodeTable(root.value, [])))
        && |r.value| == InternalWeight(root.value))
    {
      var built := BuildTree(text);
      if built.Failure? {
        return Failure(built.error);
      }
      var tree := built.value;
      NewCodesEncode(text, tree, codes);
      BuildCodes(tree);
      r := Success(Encode(text, codes));
    }

    /** Appends each bit to a buffer and emits a character whenever the
        buffer is a key of the reverse table; a trailing unmatched buffer
        is dropped. */
    method Decompress(encodedText: string) returns (decodedText: string)
      ensures decodedText == Decode(encodedText, reverseMapping, [])
    {
      var currentCode := [];
      decodedText := [];
      for i := 0 to |encodedText|
        invariant decodedText + Decode(encodedText[i..], reverseMapping, currentCode)
               == Decode(encodedText, reverseMapping, [])
      {
        var bit := encodedText[i];
        assert encodedText[i..][0] == bit && encodedText[i..][1..] == encodedText[i + 1..];
        currentCode := currentCode + [bit];
        if currentCode in reverseMapping {
          decodedText := decodedText + [reverseMapping[currentCode]];
          currentCode := [];
        }
      }
    }
  }

  lemma UnionAssoc<K, V>(a: map<K, V>, b: map<K, V>, c: map<K, V>)
    ensures (a + b) + c == a + (b + c)
  {
  }

  lemma UnionWithEmpty<K, V>(m: map<K, V>)
    ensures map[] + m == m
  {
  }

  /** A newly constructed engine compresses a text and decompresses the
      result.  The round trip holds from two distinct characters on; with
      one, both results are empty; an empty text fails before anything is
      decoded.  The compression handler (huffmanv2.py:192-193) runs this on
      an engine that is this fresh only for the first compression after
      launch or after "New Compression" (huffmanv2.py:106, 266); later
      clicks reuse tables that still hold earlier texts' entries, and
      StaleEntryBreaksRoundTrip shows what that costs. */
  method CompressThenDecompress(text: string) returns (compressed: Result<string, Error>, decoded: string)
    ensures text == [] <==> compressed == Failure(IndexError)
    ensures |Distinct(text)| >= 2 ==> compressed.Success? && decoded == text
    ensures |Distinct(text)| == 1 ==> compressed == Success([]) && decoded == []
  {
    var huffman := new HuffmanCoding();
    compressed := huffman.Compress(text);
    decoded := [];
    NothingDistinctInEmpty(text);
    if compressed.Success? {
      ghost var t := huffman.root.value;
      UnionWithEmpty(ReverseTable(t, []));
      decoded := huffman.Decompress(compressed.value);
      FreshTablesRoundTrip(t, text);
    }
  }

  /** Over the tables of a Huffman tree for a text alone, decoding the
      encoding gives the text back from two distinct characters on, and
      gives nothing with one. */
  lemma FreshTablesRoundTrip(t: Node, text: string)
    requires FitsCounts(t, text)
    ensures forall c :: c in text ==> c in CodeTable(t, [])
    ensures |Distinct(text)| >= 2 ==>
      Decode(Encode(text, CodeTable(t, [])), ReverseTable(t, []), []) == text
    ensures |Distinct(text)| == 1 ==>
      Encode(text, CodeTable(t, [])) == [] && Decode([], ReverseTable(t, []), []) == []
  {
    HuffmanTreeShape(t, text);
    CodeTableKeys(t, []);
    RootKind(t, text);
    if |Distinct(text)| >= 2 {
      RoundTrip(t, text);
    } else if |Distinct(text)| == 1 {
      SingleLeafEncodesToNothing(t.ch, t.freq, text);
    }
  }

  /** The trees the merge builds for "ab" and for "xyzz" with the standard
      heap's tie order.  For "xyzz" the leaves x:1 and y:1 merge first; their
      parent, of count 2, is pushed beside z:2 and does not rise above it, so
      z is popped first and goes left. */
  const TreeAB := Internal(2, Leaf('a', 1), Leaf('b', 1))
  const TreeXYZZ := Internal(4, Leaf('z', 2), Internal(2, Leaf('x', 1), Leaf('y', 1)))

  lemma TreeABFitsItsText()
    ensures IsHuffmanTreeFor(TreeAB, "ab")
  {
    assert multiset("ab") == multiset{'a', 'b'} by {
      assert "ab" == ['a'] + ['b'];
    }
    assert Distinct("ab") == {'a', 'b'};
    TreeABFits("ab");
  }

  lemma TreeABFits(text: string)
    requires multiset(text) == multiset{'a', 'b'} && Distinct(text) == {'a', 'b'}
    ensures IsHuffmanTreeFor(TreeAB, text)
  {
    TreeABShape(text);
    TreeABIsMerged(text);
  }

  lemma TreeABShape(text: string)
    requires multiset(text) == multiset{'a', 'b'} && Distinct(text) == {'a', 'b'}
    ensures WellFormed(TreeAB) && Greedy(TreeAB)
    ensures Occurrences(TreeAB) == multiset(text) && Symbols(TreeAB) == multiset(Distinct(text))
  {
  }

  /** The merge loop joins the two leaves of a text such as "ab" into
      TreeAB. */
  lemma TreeABIsMerged(text: string)
    requires multiset(text) == multiset{'a', 'b'}
    ensures MergeBuilds(multiset(TextLeaves(text)), TreeAB)
  {
    LeavesOfTwo(text, 'a', 'b');
    BuildsPair(Leaf('a', 1), Leaf('b', 1));
  }

  lemma TreeXYZZFitsItsText()
    ensures IsHuffmanTreeFor(TreeXYZZ, "xyzz")
  {
    TreeXYZZOccurrences();
    TreeXYZZSymbols();
    TreeXYZZFits("xyzz");
  }

  lemma TreeXYZZFits(text: string)
    requires multiset(text) == multiset{'x', 'y', 'z', 'z'}
    requires Occurrences(TreeXYZZ) == multiset(text) && Symbols(TreeXYZZ) == multiset(Distinct(text))
    ensures IsHuffmanTreeFor(TreeXYZZ, text)
  {
    assert WellFormed(TreeXYZZ) && Greedy(TreeXYZZ);
    TreeXYZZIsMerged(text);
  }

  /** For a text such as "xyzz", the merge loop first joins x and y into a
      node of count 2, then z (count 2) with that node. */
  lemma TreeXYZZIsMerged(text: string)
    requires multiset(text) == multiset{'x', 'y', 'z', 'z'}
    ensures MergeBuilds(multiset(TextLeaves(text)), TreeXYZZ)
  {
    LeavesOfThree(text, 'x', 'y', 'z');
    BuildsPairThenThird(Leaf('x', 1), Leaf('y', 1), Leaf('z', 2));
  }

  /** The leaves of a text whose two characters differ. */
  lemma LeavesOfTwo(text: string, c1: char, c2: char)
    requires c1 != c2 && multiset(text) == multiset{c1, c2}
    ensures multiset(TextLeaves(text)) == multiset{Leaf(c1, 1), Leaf(c2, 1)}
  {
    var leaves := {Leaf(c1, 1), Leaf(c2, 1)};
    forall n | n in TextLeaves(text) ensures n in leaves {
      assert n.ch in multiset(text);
    }
    assert c1 in multiset(text) && c2 in multiset(text);
    assert TextLeaves(text) == leaves;
  }

  /** The leaves of a text holding three distinct characters, the third
      twice. */
  lemma LeavesOfThree(text: string, c1: char, c2: char, c3: char)
    requires c1 != c2 && c2 != c3 && c1 != c3
    requires multiset(text) == multiset{c1, c2, c3, c3}
    ensures multiset(TextLeaves(text)) == multiset{Leaf(c1, 1), Leaf(c2, 1), Leaf(c3, 2)}
  {
    var leaves := {Leaf(c1, 1), Leaf(c2, 1), Leaf(c3, 2)};
    forall n | n in TextLeaves(text) ensures n in leaves {
      assert n.ch in multiset(text);
    }
    assert c1 in multiset(text) && c2 in multiset(text) && c3 in multiset(text);
    assert TextLeaves(text) == leaves;
  }

  lemma TreeXYZZOccurrences()
    ensures Occurrences(TreeXYZZ) == multiset("xyzz")
    ensures multiset("xyzz") == multiset{'x', 'y', 'z', 'z'}
  {
    assert Occurrences(TreeXYZZ) == multiset{'x', 'y', 'z', 'z'} by {
      assert Occurrences(Leaf('z', 2)) == multiset{'z', 'z'};
    }
    assert multiset("xyzz") == multiset{'x', 'y', 'z', 'z'} by {
      assert "xyzz" == ['x'] + ['y'] + ['z'] + ['z'];
    }
  }

  lemma TreeXYZZSymbols()
    ensures Symbols(TreeXYZZ) == multiset(Distinct("xyzz"))
  {
    assert Distinct("xyzz") == {'x', 'y', 'z'};
  }

  lemma TreeABReverseTable()
    ensures ReverseTable(TreeAB, []) == map["0" := 'a', "1" := 'b']
  {
    var e: string := [];
    assert e + "0" == "0" && e + "1" == "1";
  }

  lemma TreeXYZZReverseTable()
    ensures ReverseTable(TreeXYZZ, []) == map["0" := 'z', "10" := 'x', "11" := 'y']
  {
    var e: string := [];
    assert e + "0" == "0" && e + "1" == "1" && "1" + "0" == "10" && "1" + "1" == "11";
  }

  lemma TreeXYZZCodeTable()
    ensures CodeTable(TreeXYZZ, []) == map['z' := "0", 'x' := "10", 'y' := "11"]
  {
    var e: string := [];
    assert e + "0" == "0" && e + "1" == "1" && "1" + "0" == "10" && "1" + "1" == "11";
  }

  /** The tables are never cleared, so entries left by an earlier text stay:
      after TreeAB and then TreeXYZZ have been walked on one engine, "0" now
      means 'z' but the stale key "1" of 'b' is still there and matches
      before the new code "10" of 'x' is complete, so "x" comes back as "bz". */
  lemma StaleEntryBreaksRoundTrip()
    ensures 'x' in CodeTable(TreeXYZZ, []) && Encode("x", CodeTable(TreeXYZZ, [])) == "10"
    ensures Decode("10", map[] + ReverseTable(TreeAB, []) + ReverseTable(TreeXYZZ, []), []) == "bz"
  {
    XEncodesTo10();
    StaleTablesRead10();
  }

  lemma XEncodesTo10()
    ensures 'x' in CodeTable(TreeXYZZ, []) && Encode("x", CodeTable(TreeXYZZ, [])) == "10"
  {
    TreeXYZZCodeTable();
    EncodeOne('x', CodeTable(TreeXYZZ, []));
  }

  lemma StaleTablesRead10()
    ensures Decode("10", map[] + ReverseTable(TreeAB, []) + ReverseTable(TreeXYZZ, []), []) == "bz"
  {
    TreeABReverseTable();
    TreeXYZZReverseTable();
    var reverse := map[] + ReverseTable(TreeAB, []) + ReverseTable(TreeXYZZ, []);
    assert "1" in reverse && reverse["1"] == 'b';
    assert "0" in reverse && reverse["0"] == 'z';
    OneBitCodes(reverse);
  }

  lemma EncodeOne(c: char, codes: map<char, string>)
    requires c in codes
    ensures Encode([c], codes) == codes[c]
  {
    assert [c][1..] == [];
  }

  /** Once "1" and "0" are both keys, "10" is read as their two characters. */
  lemma OneBitCodes(reverseMapping: map<string, char>)
    requires "1" in reverseMapping && "0" in reverseMapping
    ensures Decode("10", reverseMapping, []) == [reverseMapping["1"], reverseMapping["0"]]
  {
    var e: string := [];
    assert e + ['1'] == "1" && e + ['0'] == "0" && "10"[1..] == "0" && "0"[1..] == [];
    assert Decode("0", reverseMapping, []) == [reverseMapping["0"]] + Decode([], reverseMapping, []);
  }

  /** A well-formed tree with the counts of "abacabad" (a:4, b:2, c:1, d:1)
      that the merge never builds: 'a' (count 4), the most frequent
      character, sits two levels below the root and outweighs the root's
      other child c+b (count 3).  It is a Huffman tree for no text. */
  const TreeNotGreedy := Internal(8, Internal(3, Leaf('c', 1), Leaf('b', 2)), Internal(5, Leaf('d', 1), Leaf('a', 4)))

  lemma NonGreedyTreeRejected()
    ensures WellFormed(TreeNotGreedy) && NoRepeats(TreeNotGreedy)
    ensures Occurrences(TreeNotGreedy) == multiset{'a', 'a', 'a', 'a', 'b', 'b', 'c', 'd'}
    ensures forall text :: !IsHuffmanTreeFor(TreeNotGreedy, text)
  {
    assert Leaf('a', 4) in Below(TreeNotGreedy.right);
    TreeNotGreedyOccurrences();
  }

  lemma TreeNotGreedyOccurrences()
    ensures Occurrences(TreeNotGreedy) == multiset{'a', 'a', 'a', 'a', 'b', 'b', 'c', 'd'}
  {
    assert Occurrences(Leaf('a', 4)) == multiset{'a', 'a', 'a', 'a'};
    assert Occurrences(Leaf('b', 2)) == multiset{'b', 'b'};
  }

  /** A well-formed, greedy tree without repeated characters for the counts
      a:1, b:10, p:3, q:3, r:6 whose encoding takes 52 bits.  The merge never
      builds it: it first joins 'a' with a node of count 3, while here 'a'
      is joined with 'b'. */
  const CostlyTree := Internal(23, Internal(11, Leaf('a', 1), Leaf('b', 10)),
    Internal(12, Internal(6, Leaf('p', 3), Leaf('q', 3)), Leaf('r', 6)))
  const CostlyLeaves := multiset{Leaf('a', 1), Leaf('b', 10), Leaf('p', 3), Leaf('q', 3), Leaf('r', 6)}

  lemma CostlyTreeRejected()
    ensures WellFormed(CostlyTree) && Greedy(CostlyTree) && NoRepeats(CostlyTree)
    ensures InternalWeight(CostlyTree) == 52
    ensures !MergeBuilds(CostlyLeaves, CostlyTree)
    ensures forall text :: !IsHuffmanTreeFor(CostlyTree, text)
  {
    CostlyTreeShape();
    CostlyLeavesNotMerged();
    NoTextFitsCostlyTree();
  }

  lemma NoTextFitsCostlyTree()
    ensures forall text :: !IsHuffmanTreeFor(CostlyTree, text)
  {
    forall text ensures !IsHuffmanTreeFor(CostlyTree, text) {
      CostlyTreeFitsNoText(text);
    }
  }

  lemma CostlyTreeShape()
    ensures WellFormed(CostlyTree) && Greedy(CostlyTree) && NoRepeats(CostlyTree)
    ensures InternalWeight(CostlyTree) == 52
  {
    CostlyTreeGreedy();
  }

  lemma CostlyTreeGreedy()
    ensures Greedy(CostlyTree)
  {
    assert Below(CostlyTree.left) == {Leaf('a', 1), Leaf('b', 10)};
  }

  lemma CostlyTreeLeaves()
    ensures Leaves(CostlyTree) == [Leaf('a', 1), Leaf('b', 10), Leaf('p', 3), Leaf('q', 3), Leaf('r', 6)]
  {
  }

  lemma CostlyLeavesNotMerged()
    ensures !MergeBuilds(CostlyLeaves, CostlyTree)
  {
    CostlyTreeJoinsAWithB();
    assert forall n :: n in CostlyLeaves ==> n.freq >= 1 && (n.freq == 1 ==> n == Leaf('a', 1));
    NotBuiltWithoutLightJoin(CostlyLeaves, CostlyTree, Leaf('a', 1), Leaf('p', 3));
  }

  lemma CostlyTreeFitsNoText(text: string)
    ensures !IsHuffmanTreeFor(CostlyTree, text)
  {
    if IsHuffmanTreeFor(CostlyTree, text) {
      CostlyTreeLeaves();
      HuffmanTreeShape(CostlyTree, text);
      TextLeavesAreTreeLeaves(CostlyTree, text);
      CostlyTextLeaves(text, CostlyTree);
      CostlyTreeJoinsAWithB();
      NotBuiltWithoutLightJoin(multiset(TextLeaves(text)), CostlyTree, Leaf('a', 1), Leaf('p', 3));
    }
  }

  /** In CostlyTree 'a' is joined with 'b' (count 10), and with nothing
      lighter. */
  lemma CostlyTreeJoinsAWithB()
    ensures forall u :: InTree(u, CostlyTree) && u.Internal? && u.left == Leaf('a', 1) ==> u.right.freq == 10
  {
  }

  /** The leaves of a text with the counts a:1, b:10, p:3, q:3, r:6: 'a' is
      the one leaf of count 1, and 'p' has count 3. */
  lemma CostlyTextLeaves(text: string, t: Node)
    requires Leaves(t) == [Leaf('a', 1), Leaf('b', 10), Leaf('p', 3), Leaf('q', 3), Leaf('r', 6)]
    requires forall n :: n in TextLeaves(text) <==> n in Leaves(t)
    ensures Leaf('a', 1) in multiset(TextLeaves(text)) && Leaf('p', 3) in multiset(TextLeaves(text))
    ensures forall n :: n in multiset(TextLeaves(text)) ==> n.freq >= 1 && (n.freq == 1 ==> n == Leaf('a', 1))
  {
    assert Leaves(t)[0] == Leaf('a', 1) && Leaves(t)[2] == Leaf('p', 3);
  }

  /** The leaves of a tree that fits a text's counts are the text's own
      leaves. */
  lemma TextLeavesAreTreeLeaves(t: Node, text: string)
    requires forall n :: n in Leaves(t) ==> n.freq == multiset(text)[n.ch]
    requires forall c :: c in Symbols(t) <==> c in text
    ensures forall n :: n in TextLeaves(text) <==> n in Leaves(t)
  {
    forall n | n in TextLeaves(text) ensures n in Leaves(t) {
      SymbolHasLeaf(t, n.ch);
    }
    forall n | n in Leaves(t) ensures n in TextLeaves(text) {
      LeafSymbol(t, n);
    }
  }

  /** A tree in which the one lightest node `a` is joined only with nodes
      heavier than `p` is not built. */
  lemma NotBuiltWithoutLightJoin(bag: multiset<Node>, t: Node, a: Node, p: Node)
    requires a in bag && p in bag && a != p
    requires forall n :: n in bag ==> a.freq <= n.freq && (n.freq == a.freq ==> n == a)
    requires forall u :: InTree(u, t) && u.Internal? && u.left == a ==> u.right.freq > p.freq
    ensures !MergeBuilds(bag, t)
  {
    if MergeBuilds(bag, t) {
      LightestJoinedFirst(bag, t, a, p);
    }
  }

  /** When `a` is the one lightest node the merge loop starts from, its
      first round joins `a` with a node no heavier than `p`, and that parent
      stays in the tree the loop builds. */
  lemma LightestJoinedFirst(bag: multiset<Node>, t: Node, a: Node, p: Node)
    requires MergeBuilds(bag, t)
    requires a in bag && p in bag && a != p
    requires forall n :: n in bag ==> a.freq <= n.freq && (n.freq == a.freq ==> n == a)
    ensures exists u :: InTree(u, t) && u.Internal? && u.left == a && u.right.freq <= p.freq
  {
    TwoInBag(bag, a, p);
    FirstParentInTree(bag, t);
    var n1, n2 :| && LightestIn(n1, bag) && LightestIn(n2, bag - multiset{n1})
                  && InTree(Internal(n1.freq + n2.freq, n1, n2), t);
    UniqueLightestFirst(bag, a, p, n1, n2);
    var parent := Internal(n1.freq + n2.freq, n1, n2);
    assert InTree(parent, t) && parent.left == a && parent.right.freq <= p.freq;
  }

  /** `m` is `t` or a node below it. */
  ghost predicate InTree(m: Node, t: Node) {
    m == t || m in Below(t)
  }

  /** The parent the first round of the merge loop pushes ends up in the
      tree the loop builds. */
  lemma FirstParentInTree(bag: multiset<Node>, t: Node)
    requires MergeBuilds(bag, t) && |bag| >= 2
    ensures exists n1, n2 :: && LightestIn(n1, bag) && LightestIn(n2, bag - multiset{n1})
                             && InTree(Internal(n1.freq + n2.freq, n1, n2), t)
  {
    assert MergesOnward(bag, t);
    var n1, n2 :| && LightestIn(n1, bag) && LightestIn(n2, bag - multiset{n1})
                  && MergeBuilds(MergeOnce(bag, n1, n2), t);
    var parent := Internal(n1.freq + n2.freq, n1, n2);
    MergeOnceMembers(bag, n1, n2, n1);
    BuiltTreeContains(MergeOnce(bag, n1, n2), t, parent);
  }

  /** Two different nodes make a bag of at least two. */
  lemma TwoInBag(bag: multiset<Node>, a: Node, p: Node)
    requires a in bag && p in bag && a != p
    ensures |bag| >= 2
  {
    var rest := bag - multiset{a};
    assert bag == rest + multiset{a};
    assert p in rest;
  }

  /** The first round takes the one lightest node, then a node no heavier
      than any other. */
  lemma UniqueLightestFirst(bag: multiset<Node>, a: Node, p: Node, n1: Node, n2: Node)
    requires a in bag && p in bag && a != p
    requires forall n :: n in bag ==> a.freq <= n.freq && (n.freq == a.freq ==> n == a)
    requires LightestIn(n1, bag) && LightestIn(n2, bag - multiset{n1})
    ensures n1 == a && n2.freq <= p.freq
  {
    assert n1 == a;
    assert p in bag - multiset{n1};
  }

  /** One merge that joins the two lightest nodes `x` and `y`. */
  lemma ChainStep(x: Node, y: Node, rest: multiset<Node>, t: Node)
    requires x.freq <= y.freq && forall m :: m in rest ==> y.freq <= m.freq
    requires MergeBuilds(rest + multiset{Internal(x.freq + y.freq, x, y)}, t)
    ensures MergeBuilds(rest + multiset{x, y}, t)
  {
    LightestPair(x, y, rest);
    BuildsFromFirstMerge(rest + multiset{x, y}, x, y, t);
  }

  lemma LightestPair(x: Node, y: Node, rest: multiset<Node>)
    requires x.freq <= y.freq && forall m :: m in rest ==> y.freq <= m.freq
    ensures LightestIn(x, rest + multiset{x, y}) && LightestIn(y, rest + multiset{x, y} - multiset{x})
    ensures MergeOnce(rest + multiset{x, y}, x, y) == rest + multiset{Internal(x.freq + y.freq, x, y)}
  {
    var bag := rest + multiset{x, y};
    assert bag - multiset{x} == rest + multiset{y};
    assert bag - multiset{x} - multiset{y} == rest;
  }

  /** Every node the merge loop starts from ends up in the tree it builds. */
  lemma {:induction false} BuiltTreeContains(bag: multiset<Node>, t: Node, m: Node)
    requires MergeBuilds(bag, t) && m in bag
    ensures m == t || m in Below(t)
    decreases |bag|
  {
    if |bag| >= 2 {
      assert MergesOnward(bag, t);
      var n1, n2 :| && LightestIn(n1, bag) && LightestIn(n2, bag - multiset{n1})
                    && MergeBuilds(MergeOnce(bag, n1, n2), t);
      var next := MergeOnce(bag, n1, n2);
      var parent := Internal(n1.freq + n2.freq, n1, n2);
      MergeOnceMembers(bag, n1, n2, m);
      if m in next {
        BuiltTreeContains(next, t, m);
      } else {
        BuiltTreeContains(next, t, parent);
        if parent != t {
          BelowIsTransitive(t, parent);
        }
      }
    }
  }

  /** One round leaves one node fewer: the parent, and every other node
      but the two it joins. */
  lemma MergeOnceMembers(bag: multiset<Node>, n1: Node, n2: Node, m: Node)
    requires n1 in bag && n2 in bag - multiset{n1} && m in bag
    ensures |MergeOnce(bag, n1, n2)| == |bag| - 1
    ensures Internal(n1.freq + n2.freq, n1, n2) in MergeOnce(bag, n1, n2)
    ensures m in MergeOnce(bag, n1, n2) || m == n1 || m == n2
  {
    if m != n1 && m != n2 {
      assert m in bag - multiset{n1} - multiset{n2};
    }
  }

  /** The shape of a Huffman tree for a text: its root counts every
      character of the text, it has one leaf per distinct character carrying
      that character's count, and one internal node fewer than leaves. */
  lemma HuffmanTreeShape(t: Node, text: string)
    requires FitsCounts(t, text)
    ensures t.freq == |text|
    ensures NoRepeats(t)
    ensures forall c :: c in Symbols(t) <==> c in text
    ensures forall n :: n in Leaves(t) ==> n.freq == multiset(text)[n.ch] >= 1
    ensures |Leaves(t)| == |Distinct(text)|
    ensures InternalCount(t) == |Distinct(text)| - 1
  {
    FreqIsOccurrenceCount(t);
    SymbolsCountLeaves(t);
    InternalNodesOneFewerThanLeaves(t);
    forall c ensures Symbols(t)[c] <= 1 && (c in Symbols(t) <==> c in text) {
      assert c in Distinct(text) <==> c in text;
    }
    forall n | n in Leaves(t) ensures n.freq == multiset(text)[n.ch] >= 1 {
      LeafFreqIsOccurrences(t, n);
      LeafSymbol(t, n);
    }
  }

  /** With two or more distinct characters the root is an internal node,
      with one it is that character's leaf and its code is empty. */
  lemma RootKind(t: Node, text: string)
    requires FitsCounts(t, text)
    ensures |Distinct(text)| >= 2 ==> t.Internal?
    ensures |Distinct(text)| == 1 ==> t.Leaf? && t.ch in text && CodeTable(t, []) == map[t.ch := []]
  {
    HuffmanTreeShape(t, text);
    if |Distinct(text)| == 1 && t.Leaf? {
      assert t.ch in Symbols(t);
    }
  }

  /** The steps of the pipeline, chained: the tree merged from the heap of
      the text's frequency table is a Huffman tree for the text. */
  lemma PipelineBuildsHuffmanTree(text: string, frequency: map<char, nat>, heap: seq<Node>, tree: Node)
    requires frequency.Keys == Distinct(text)
    requires forall c :: c in frequency ==> frequency[c] == multiset(text)[c] >= 1
    requires forall n :: n in heap ==> n.Leaf? && n.ch in frequency && n.freq == frequency[n.ch]
    requires Gather(heap, Symbols) == multiset(frequency.Keys)
    requires forall c :: Gather(heap, Occurrences)[c] == if c in frequency then frequency[c] else 0
    requires Symbols(tree) == Gather(heap, Symbols)
    requires Occurrences(tree) == Gather(heap, Occurrences)
    requires (forall n :: n in heap ==> WellFormed(n)) ==> WellFormed(tree)
    requires Settled(heap) ==> Greedy(tree)
    requires multiset(heap) == multiset(LeavesFor(frequency, frequency.Keys))
    requires MergeBuilds(multiset(heap), tree)
    ensures IsHuffmanTreeFor(tree, text)
  {
    BuildsFromTextLeaves(text, frequency, heap, tree);
    TreeFitsText(text, frequency, heap, tree);
  }

  /** The counts the merge loop keeps are the text's counts. */
  lemma TreeFitsText(text: string, frequency: map<char, nat>, heap: seq<Node>, tree: Node)
    requires frequency.Keys == Distinct(text)
    requires forall c :: c in frequency ==> frequency[c] == multiset(text)[c] >= 1
    requires forall n :: n in heap ==> n.Leaf? && n.ch in frequency && n.freq == frequency[n.ch]
    requires Gather(heap, Symbols) == multiset(frequency.Keys)
    requires forall c :: Gather(heap, Occurrences)[c] == if c in frequency then frequency[c] else 0
    requires Symbols(tree) == Gather(heap, Symbols)
    requires Occurrences(tree) == Gather(heap, Occurrences)
    requires (forall n :: n in heap ==> WellFormed(n)) ==> WellFormed(tree)
    requires Settled(heap) ==> Greedy(tree)
    ensures WellFormed(tree) && Greedy(tree)
    ensures Occurrences(tree) == multiset(text) && Symbols(tree) == multiset(Distinct(text))
  {
    LeavesAreSettled(heap);
    forall c ensures Occurrences(tree)[c] == multiset(text)[c] {
      if c !in frequency {
        assert c !in Distinct(text);
      }
    }
  }

  /** Once the walk has recorded a Huffman tree's codes over whatever the
      table held before, every character of the text has a code, the stale
      entries play no part in the encoding, and the encoding takes as many
      bits as the internal nodes' counts add up to. */
  lemma NewCodesEncode(text: string, tree: Node, base: map<char, string>)
    requires FitsCounts(tree, text)
    ensures forall c :: c in text ==> c in CodeTable(tree, []) && c in base + CodeTable(tree, [])
    ensures Encode(text, base + CodeTable(tree, [])) == Encode(text, CodeTable(tree, []))
    ensures |Encode(text, CodeTable(tree, []))| == InternalWeight(tree)
  {
    HuffmanTreeShape(tree, text);
    EncodedLength(tree, [], text);
    PathWeightIsInternalWeight(tree);
    EncodeAgrees(text, base + CodeTable(tree, []), CodeTable(tree, []));
  }

  /** What the heap holds after the entries for the characters in `done`
      have been pushed: one leaf per such entry and nothing else. */
  ghost predicate HoldsLeavesOf(heap: seq<Node>, frequency: map<char, nat>, done: set<char>) {
    && (forall n :: n in heap ==> n.Leaf? && n.ch in done && n.ch in frequency && n.freq == frequency[n.ch])
    && (forall c :: c in done && c in frequency ==> Leaf(c, frequency[c]) in heap)
    && Gather(heap, Symbols) == multiset(done)
    && multiset(heap) == multiset(LeavesFor(frequency, done))
    && (forall c :: Gather(heap, Occurrences)[c] == if c in done && c in frequency then frequency[c] else 0)
  }

  /** The empty heap holds the leaves of no entry. */
  lemma NothingPushedYet(frequency: map<char, nat>)
    ensures HoldsLeavesOf([], frequency, {})
  {
    assert LeavesFor(frequency, {}) == {};
  }

  /** Once every entry has been pushed, the heap holds exactly the table's leaves. */
  lemma AllLeavesPushed(heap: seq<Node>, frequency: map<char, nat>)
    requires HoldsLeavesOf(heap, frequency, frequency.Keys)
    ensures forall n :: n in heap ==> n.Leaf? && n.ch in frequency && n.freq == frequency[n.ch]
    ensures forall c :: c in frequency ==> Leaf(c, frequency[c]) in heap
    ensures multiset(heap) == multiset(LeavesFor(frequency, frequency.Keys))
    ensures Gather(heap, Symbols) == multiset(frequency.Keys)
    ensures forall c :: Gather(heap, Occurrences)[c] == if c in frequency then frequency[c] else 0
  {
  }

  /** Pushing the leaf for a character not yet done extends what the heap holds. */
  lemma PushKeepsLeavesOf(heap: seq<Node>, frequency: map<char, nat>, done: set<char>, c: char, pushed: seq<Node>)
    requires HoldsLeavesOf(heap, frequency, done)
    requires c in frequency && c !in done
    requires multiset(pushed) == multiset(heap) + multiset{Leaf(c, frequency[c])}
    ensures HoldsLeavesOf(pushed, frequency, done + {c})
  {
    var node := Leaf(c, frequency[c]);
    var done' := done + {c};
    PushAddsLeaf(frequency, done, c);
    assert forall n :: n in pushed ==> n.Leaf? && n.ch in done' && n.ch in frequency && n.freq == frequency[n.ch] by {
      forall n | n in pushed ensures n == node || n in heap {
        assert n in multiset(pushed);
      }
    }
    assert forall d :: d in done' && d in frequency ==> Leaf(d, frequency[d]) in pushed by {
      forall d | d in done' && d in frequency ensures Leaf(d, frequency[d]) in pushed {
        assert Leaf(d, frequency[d]) in multiset(pushed);
      }
    }
    assert Gather(pushed, Symbols) == multiset(done') by {
      GatherSplit(pushed, node, heap, Symbols);
      assert multiset(done') == multiset(done) + multiset{c};
    }
    assert forall d :: Gather(pushed, Occurrences)[d] == if d in done' && d in frequency then frequency[d] else 0 by {
      GatherSplit(pushed, node, heap, Occurrences);
      forall d ensures Gather(pushed, Occurrences)[d] == if d in done' && d in frequency then frequency[d] else 0 {
        assert Gather(pushed, Occurrences)[d] == Occurrences(node)[d] + Gather(heap, Occurrences)[d];
        assert Occurrences(node)[d] == if d == c then frequency[c] else 0;
      }
    }
  }

  /** What the merge loop keeps: the heap holds the same leaves, symbols and
      occurrences as at the start, and stays well formed if it started so. */
  ghost predicate SameContents(h: seq<Node>, heap: seq<Node>) {
    && Gather(h, LeafBag) == Gather(heap, LeafBag)
    && Gather(h, Symbols) == Gather(heap, Symbols)
    && Gather(h, Occurrences) == Gather(heap, Occurrences)
    && ((forall n :: n in heap ==> WellFormed(n)) ==> forall n :: n in h ==> WellFormed(n))
  }

  /** One round of the loop (pop, pop, push the parent) keeps SameContents. */
  lemma MergeKeepsContents(heap: seq<Node>, h0: seq<Node>, n1: Node, h1: seq<Node>, n2: Node, h2: seq<Node>,
                           merged: Node, h3: seq<Node>)
    requires SameContents(h0, heap)
    requires forall n :: n in h0 ==> n1.freq <= n.freq
    requires multiset(h0) == multiset(h1) + multiset{n1}
    requires multiset(h1) == multiset(h2) + multiset{n2}
    requires multiset(h3) == multiset(h2) + multiset{merged}
    requires merged == Internal(n1.freq + n2.freq, n1, n2)
    ensures SameContents(h3, heap)
  {
    MergeKeepsGather(h0, n1, h1, n2, h2, merged, h3, LeafBag);
    MergeKeepsGather(h0, n1, h1, n2, h2, merged, h3, Symbols);
    MergeKeepsGather(h0, n1, h1, n2, h2, merged, h3, Occurrences);
    MergeKeepsWellFormed(h0, n1, h1, n2, h2, merged, h3);
  }

  /** When one node is left, it carries everything the heap started with. */
  lemma RootHasContents(heap: seq<Node>, h: seq<Node>)
    requires |h| == 1 && SameContents(h, heap)
    ensures (forall n :: n in heap ==> n.Leaf?) ==> multiset(Leaves(h[0])) == multiset(heap)
    ensures Symbols(h[0]) == Gather(heap, Symbols)
    ensures Occurrences(h[0]) == Gather(heap, Occurrences)
    ensures (forall n :: n in heap ==> WellFormed(n)) ==> WellFormed(h[0])
  {
    assert h == [h[0]] && h[0] in h;
    GatherSingleton(h[0], LeafBag);
    GatherSingleton(h[0], Symbols);
    GatherSingleton(h[0], Occurrences);
    if forall n :: n in heap ==> n.Leaf? {
      LeafBagOfLeaves(heap);
    }
  }

  /** Merging two popped nodes and pushing their parent leaves any additive
      measure of the heap's contents unchanged. */
  lemma MergeKeepsGather<U>(h0: seq<Node>, n1: Node, h1: seq<Node>, n2: Node, h2: seq<Node>,
                            merged: Node, h3: seq<Node>, f: Node -> multiset<U>)
    requires multiset(h0) == multiset(h1) + multiset{n1}
    requires multiset(h1) == multiset(h2) + multiset{n2}
    requires multiset(h3) == multiset(h2) + multiset{merged}
    requires f(merged) == f(n1) + f(n2)
    ensures Gather(h3, f) == Gather(h0, f)
  {
    GatherSplit(h0, n1, h1, f);
    GatherSplit(h1, n2, h2, f);
    GatherSplit(h3, merged, h2, f);
  }

  /** The parent of the two smallest well-formed nodes is well formed: its
      left child, popped first, is no heavier than its right. */
  lemma MergeKeepsWellFormed(h0: seq<Node>, n1: Node, h1: seq<Node>, n2: Node, h2: seq<Node>,
                             merged: Node, h3: seq<Node>)
    requires forall n :: n in h0 ==> n1.freq <= n.freq
    requires multiset(h0) == multiset(h1) + multiset{n1}
    requires multiset(h1) == multiset(h2) + multiset{n2}
    requires multiset(h3) == multiset(h2) + multiset{merged}
    requires merged == Internal(n1.freq + n2.freq, n1, n2)
    ensures (forall n :: n in h0 ==> WellFormed(n)) ==> forall n :: n in h3 ==> WellFormed(n)
  {
    assert n1 in multiset(h0);
    assert n2 in multiset(h1) && n2 in multiset(h0);
    forall n | n in h3 ensures n == merged || n in h0 {
      assert n in multiset(h3);
      if n != merged {
        assert n in multiset(h2) && n in multiset(h1) && n in multiset(h0);
      }
    }
  }

  /** What the merge loop keeps about the greedy choice: every tree on the
      heap is Greedy, and nothing merged so far, that is no node strictly
      inside a tree on the heap, outweighs a node still on the heap. */
  ghost predicate Settled(heap: seq<Node>) {
    && (forall t :: t in heap ==> Greedy(t))
    && (forall t, d :: t in heap && d in Below(t) ==> forall h :: h in heap ==> d.freq <= h.freq)
  }

  /** A heap of lone leaves has merged nothing yet. */
  lemma LeavesAreSettled(heap: seq<Node>)
    requires forall n :: n in heap ==> n.Leaf?
    ensures Settled(heap)
  {
    forall t | t in heap ensures Below(t) == {} && Greedy(t) {
    }
  }

  /** One round of the loop keeps Settled: the two popped nodes are the
      lightest on the heap, so they and everything inside them weigh no more
      than what stays, and no more than their parent. */
  lemma MergeKeepsSettled(h0: seq<Node>, n1: Node, h1: seq<Node>, n2: Node, h2: seq<Node>,
                          merged: Node, h3: seq<Node>)
    requires forall n :: n in h0 ==> n1.freq <= n.freq
    requires forall n :: n in h1 ==> n2.freq <= n.freq
    requires multiset(h0) == multiset(h1) + multiset{n1}
    requires multiset(h1) == multiset(h2) + multiset{n2}
    requires multiset(h3) == multiset(h2) + multiset{merged}
    requires merged == Internal(n1.freq + n2.freq, n1, n2)
    ensures Settled(h0) ==> Settled(h3)
  {
    if Settled(h0) {
      MergedMembers(h0, n1, h1, n2, h2, merged, h3);
      assert Greedy(merged) by {
        forall d | d in Below(n1) + Below(n2) ensures d.freq <= n1.freq && d.freq <= n2.freq {
        }
      }
      forall t, d, h | t in h3 && d in Below(t) && h in h3 ensures d.freq <= h.freq {
        if t == merged {
          assert d == n1 || d == n2 || d in Below(n1) || d in Below(n2);
          if h != merged {
            assert n1.freq <= h.freq && n2.freq <= h.freq;
          }
        } else if h == merged {
          assert d.freq <= n1.freq;
        }
      }
    }
  }

  /** Where the nodes of the heap after one round come from. */
  lemma MergedMembers(h0: seq<Node>, n1: Node, h1: seq<Node>, n2: Node, h2: seq<Node>,
                      merged: Node, h3: seq<Node>)
    requires multiset(h0) == multiset(h1) + multiset{n1}
    requires multiset(h1) == multiset(h2) + multiset{n2}
    requires multiset(h3) == multiset(h2) + multiset{merged}
    ensures n1 in h0 && n2 in h1 && n2 in h0
    ensures forall n :: n in h3 ==> n == merged || (n in h1 && n in h0)
  {
    assert n1 in multiset(h0);
    assert n2 in multiset(h1) && n2 in multiset(h0);
    forall n | n in h3 ensures n == merged || (n in h1 && n in h0) {
      assert n in multiset(h3);
      if n != merged {
        assert n in multiset(h2) && n in multiset(h1) && n in multiset(h0);
      }
    }
  }

  /** One round of the loop is one step of MergeBuilds: whatever the rest
      of the loop builds from the new heap, it builds from the old one. */
  lemma MergeKeepsBuilds(h0: seq<Node>, n1: Node, h1: seq<Node>, n2: Node, h2: seq<Node>,
                         merged: Node, h3: seq<Node>)
    requires |h0| >= 2
    requires forall n :: n in h0 ==> n1.freq <= n.freq
    requires forall n :: n in h1 ==> n2.freq <= n.freq
    requires multiset(h0) == multiset(h1) + multiset{n1}
    requires multiset(h1) == multiset(h2) + multiset{n2}
    requires multiset(h3) == multiset(h2) + multiset{merged}
    requires merged == Internal(n1.freq + n2.freq, n1, n2)
    ensures BuildsLike(h3, h0)
  {
    RoundIsMergeOnce(h0, n1, h1, n2, h2, merged, h3);
    forall t | MergeBuilds(multiset(h3), t) ensures MergeBuilds(multiset(h0), t) {
      BuildsFromFirstMerge(multiset(h0), n1, n2, t);
    }
  }

  /** A round pops a lightest node, then a lightest of the rest, and pushes
      their parent. */
  lemma RoundIsMergeOnce(h0: seq<Node>, n1: Node, h1: seq<Node>, n2: Node, h2: seq<Node>,
                         merged: Node, h3: seq<Node>)
    requires forall n :: n in h0 ==> n1.freq <= n.freq
    requires forall n :: n in h1 ==> n2.freq <= n.freq
    requires multiset(h0) == multiset(h1) + multiset{n1}
    requires multiset(h1) == multiset(h2) + multiset{n2}
    requires multiset(h3) == multiset(h2) + multiset{merged}
    requires merged == Internal(n1.freq + n2.freq, n1, n2)
    ensures LightestIn(n1, multiset(h0)) && LightestIn(n2, multiset(h0) - multiset{n1})
    ensures multiset(h3) == MergeOnce(multiset(h0), n1, n2)
  {
    assert multiset(h0) - multiset{n1} == multiset(h1);
    assert n1 in multiset(h0);
    assert n2 in multiset(h1);
  }

  /** A first merge of two lightest nodes, then a build from what is left,
      is a build. */
  lemma BuildsFromFirstMerge(bag: multiset<Node>, n1: Node, n2: Node, t: Node)
    requires LightestIn(n1, bag) && LightestIn(n2, bag - multiset{n1})
    requires MergeBuilds(MergeOnce(bag, n1, n2), t)
    ensures MergeBuilds(bag, t)
  {
    assert n2 in bag - multiset{n1};
    assert |bag| >= 2 by {
      assert |bag - multiset{n1}| >= 1;
    }
  }

  /** A lone node is the tree. */
  lemma BuildsLone(t: Node)
    ensures MergeBuilds(multiset{t}, t)
  {
  }

  /** Two nodes are joined, the lighter on the left. */
  lemma BuildsPair(n1: Node, n2: Node)
    requires n1.freq <= n2.freq
    ensures MergeBuilds(multiset{n1, n2}, Internal(n1.freq + n2.freq, n1, n2))
  {
    var bag := multiset{n1, n2};
    var t := Internal(n1.freq + n2.freq, n1, n2);
    assert bag - multiset{n1} == multiset{n2};
    assert MergeOnce(bag, n1, n2) == multiset{t};
    BuildsLone(t);
    BuildsFromFirstMerge(bag, n1, n2, t);
  }

  /** Of three nodes, the two lightest are joined first, then the third
      with their parent. */
  lemma BuildsPairThenThird(n1: Node, n2: Node, n3: Node)
    requires n1.freq <= n2.freq <= n3.freq <= n1.freq + n2.freq
    ensures MergeBuilds(multiset{n1, n2, n3},
      Internal(n3.freq + (n1.freq + n2.freq), n3, Internal(n1.freq + n2.freq, n1, n2)))
  {
    var p := Internal(n1.freq + n2.freq, n1, n2);
    var t := Internal(n3.freq + p.freq, n3, p);
    assert t == Internal(n3.freq + (n1.freq + n2.freq), n3, Internal(n1.freq + n2.freq, n1, n2));
    assert MergeBuilds(multiset{n3} + multiset{n1, n2}, t) by {
      assert multiset{n3} + multiset{p} == multiset{n3, p};
      BuildsPair(n3, p);
      ChainStep(n1, n2, multiset{n3}, t);
    }
    assert multiset{n3} + multiset{n1, n2} == multiset{n1, n2, n3};
  }

  /** Every tree the merge loop builds from `h` it also builds from `heap`:
      `h` is a heap the loop reaches from `heap`. */
  ghost predicate BuildsLike(h: seq<Node>, heap: seq<Node>) {
    forall t :: MergeBuilds(multiset(h), t) ==> MergeBuilds(multiset(heap), t)
  }

  lemma BuildsLikeTransitive(h3: seq<Node>, h: seq<Node>, heap: seq<Node>)
    requires BuildsLike(h3, h) && BuildsLike(h, heap)
    ensures BuildsLike(h3, heap)
  {
  }

  /** When one node is left, the loop has built it from the starting heap. */
  lemma LastNodeIsBuilt(h: seq<Node>, heap: seq<Node>)
    requires |h| == 1 && BuildsLike(h, heap) && (Settled(heap) ==> Settled(h))
    ensures MergeBuilds(multiset(heap), h[0])
    ensures Settled(heap) ==> Greedy(h[0])
  {
    assert h[0] in h;
    assert multiset(h) == multiset{h[0]} by {
      assert h == [h[0]];
    }
  }

  /** Everything the merge loop keeps, through one round. */
  lemma MergeRoundKeeps(heap: seq<Node>, h0: seq<Node>, n1: Node, h1: seq<Node>, n2: Node, h2: seq<Node>,
                        merged: Node, h3: seq<Node>)
    requires |h0| >= 2
    requires SameContents(h0, heap) && (Settled(heap) ==> Settled(h0)) && BuildsLike(h0, heap)
    requires forall n :: n in h0 ==> n1.freq <= n.freq
    requires forall n :: n in h1 ==> n2.freq <= n.freq
    requires multiset(h0) == multiset(h1) + multiset{n1}
    requires multiset(h1) == multiset(h2) + multiset{n2}
    requires multiset(h3) == multiset(h2) + multiset{merged}
    requires merged == Internal(n1.freq + n2.freq, n1, n2)
    ensures SameContents(h3, heap) && (Settled(heap) ==> Settled(h3)) && BuildsLike(h3, heap)
  {
    MergeKeepsContents(heap, h0, n1, h1, n2, h2, merged, h3);
    MergeKeepsSettled(h0, n1, h1, n2, h2, merged, h3);
    MergeKeepsBuilds(h0, n1, h1, n2, h2, merged, h3);
    BuildsLikeTransitive(h3, h0, heap);
  }

  /** Pushing the leaf of a character not yet done adds exactly that leaf. */
  lemma PushAddsLeaf(frequency: map<char, nat>, done: set<char>, c: char)
    requires c in frequency && c !in done
    ensures multiset(LeavesFor(frequency, done + {c}))
         == multiset(LeavesFor(frequency, done)) + multiset{Leaf(c, frequency[c])}
  {
    var leaf := Leaf(c, frequency[c]);
    assert LeavesFor(frequency, done + {c}) == LeavesFor(frequency, done) + {leaf};
    assert leaf !in LeavesFor(frequency, done);
  }

  /** A tree the merge loop builds from the heap of frequency leaves is one
      it builds from the text's own leaves. */
  lemma BuildsFromTextLeaves(text: string, frequency: map<char, nat>, heap: seq<Node>, tree: Node)
    requires frequency.Keys == Distinct(text)
    requires forall c :: c in frequency ==> frequency[c] == multiset(text)[c] >= 1
    requires multiset(heap) == multiset(LeavesFor(frequency, frequency.Keys))
    requires MergeBuilds(multiset(heap), tree)
    ensures MergeBuilds(multiset(TextLeaves(text)), tree)
  {
    FrequencyLeaves(text, frequency);
  }

  /** The leaves pushed for the text's frequency table are its TextLeaves. */
  lemma FrequencyLeaves(text: string, frequency: map<char, nat>)
    requires frequency.Keys == Distinct(text)
    requires forall c :: c in frequency ==> frequency[c] == multiset(text)[c]
    ensures LeavesFor(frequency, frequency.Keys) == TextLeaves(text)
  {
    forall n ensures n in LeavesFor(frequency, frequency.Keys) <==> n in TextLeaves(text) {
      if n in TextLeaves(text) {
        assert n.ch in Distinct(text);
      }
    }
  }
}
