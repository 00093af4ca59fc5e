/** The code a Huffman tree defines, the encoding join and the bit-by-bit
    decoder, as functions; the class in module Huffman fills its maps and
    runs its decoding loop against these. */
module Codes {
  import opened Wrappers
  import opened Nodes

  /** The codes the recursive walk records below `t` when it reaches `t` with
      `prefix`: "0" is appended going left, "1" going right, and a leaf records
      its character.  The right subtree is walked last, so its entries win.
      Every code recorded below `t` extends `prefix`, strictly so when `t` is
      an internal node. */
  function CodeTable(t: Node, prefix: string): (table: map<char, string>)
    ensures forall c :: c in table ==> prefix <= table[c] && (t.Internal? ==> |prefix| < |table[c]|)
  {
    match t
    case Leaf(c, _) => map[c := prefix]
    case Internal(_, l, r) => CodeTable(l, prefix + "0") + CodeTable(r, prefix + "1")
  }

  /** The reverse entries the same walk records: each leaf's path to its
      character.  Every key extends `prefix`, strictly so below an internal
      node. */
  function ReverseTable(t: Node, prefix: string): (table: map<string, char>)
    ensures forall w :: w in table ==> prefix <= w && (t.Internal? ==> |prefix| < |w|)
  {
    match t
    case Leaf(c, _) => map[prefix := c]
    case Internal(_, l, r) => ReverseTable(l, prefix + "0") + ReverseTable(r, prefix + "1")
  }

  /** The node reached from `t` by following `path`: '0' goes left, '1' goes
      right; None when the path leaves the tree. */
  function Follow(t: Node, path: string): Option<Node> {
    if path == [] then Some(t)
    else match t
      case Leaf(_, _) => None
      case Internal(_, l, r) =>
        if path[0] == '0' then Follow(l, path[1..])
        else if path[0] == '1' then Follow(r, path[1..])
        else None
  }

  /** No key is a prefix of another key. */
  predicate PrefixFree(keys: set<string>) {
    forall u, v :: u in keys && v in keys && u != v ==> !(u <= v)
  }

  /** Exactly the characters on the leaves get a code. */
  lemma {:induction false} CodeTableKeys(t: Node, prefix: string)
    ensures forall c :: c in CodeTable(t, prefix) <==> c in Symbols(t)
  {
    match t
    case Leaf(_, _) =>
    case Internal(_, l, r) =>
      CodeTableKeys(l, prefix + "0");
      CodeTableKeys(r, prefix + "1");
  }

  /** A character's code, read after the prefix, is the path from `t` to a
      leaf carrying that character. */
  lemma {:induction false} CodeIsLeafPath(t: Node, prefix: string, c: char)
    requires c in CodeTable(t, prefix)
    ensures prefix <= CodeTable(t, prefix)[c]
    ensures var reached := Follow(t, CodeTable(t, prefix)[c][|prefix|..]);
      reached.Some? && reached.value.Leaf? && reached.value.ch == c
  {
    match t
    case Leaf(_, _) =>
    case Internal(_, l, r) =>
      var w := CodeTable(t, prefix)[c];
      if c in CodeTable(r, prefix + "1") {
        CodeIsLeafPath(r, prefix + "1", c);
        FollowThroughChild(t, prefix, '1', w);
      } else {
        CodeIsLeafPath(l, prefix + "0", c);
        FollowThroughChild(t, prefix, '0', w);
      }
  }

  /** A path that starts, after the prefix, with a bit continues in the
      child that bit selects. */
  lemma FollowThroughChild(t: Node, prefix: string, bit: char, w: string)
    requires t.Internal? && (bit == '0' || bit == '1')
    requires prefix + [bit] <= w
    ensures prefix <= w
    ensures Follow(t, w[|prefix|..]) == Follow(if bit == '0' then t.left else t.right, w[|prefix + [bit]|..])
  {
    assert w[|prefix|..][0] == bit && w[|prefix|..][1..] == w[|prefix + [bit]|..];
  }

  /** Two words that extend prefixes differing in their last bit are not
      prefixes of each other. */
  lemma Diverge(prefix: string, u: string, v: string)
    requires prefix + "0" <= u && prefix + "1" <= v
    ensures !(u <= v) && !(v <= u)
  {
    assert u[|prefix|] == '0' && v[|prefix|] == '1';
  }

  /** The leaf paths of a tree form a prefix-free set: that is what lets the
      decoder emit a character as soon as its buffer matches. */
  lemma {:induction false} ReverseTablePrefixFree(t: Node, prefix: string)
    ensures PrefixFree(ReverseTable(t, prefix).Keys)
  {
    match t
    case Leaf(_, _) =>
    case Internal(_, l, r) =>
      var left, right := ReverseTable(l, prefix + "0"), ReverseTable(r, prefix + "1");
      ReverseTablePrefixFree(l, prefix + "0");
      ReverseTablePrefixFree(r, prefix + "1");
      forall u, v | u in (left + right).Keys && v in (left + right).Keys && u != v
        ensures !(u <= v)
      {
        if u in left && v in right {
          Diverge(prefix, u, v);
        } else if u in right && v in left {
          Diverge(prefix, v, u);
        }
      }
  }

  /** The two tables are inverse to each other when no character labels two
      leaves. */
  lemma {:induction false} TablesAreInverse(t: Node, prefix: string)
    requires NoRepeats(t)
    ensures forall c :: c in CodeTable(t, prefix) ==>
      CodeTable(t, prefix)[c] in ReverseTable(t, prefix) &&
      ReverseTable(t, prefix)[CodeTable(t, prefix)[c]] == c
    ensures forall w :: w in ReverseTable(t, prefix) ==>
      ReverseTable(t, prefix)[w] in CodeTable(t, prefix) &&
      CodeTable(t, prefix)[ReverseTable(t, prefix)[w]] == w
  {
    match t
    case Leaf(_, _) =>
    case Internal(_, l, r) =>
      ChildrenNoRepeats(t);
      var p0, p1 := prefix + "0", prefix + "1";
      TablesAreInverse(l, p0);
      TablesAreInverse(r, p1);
      CodeTableKeys(l, p0);
      CodeTableKeys(r, p1);
      forall c | c in CodeTable(t, prefix)
        ensures CodeTable(t, prefix)[c] in ReverseTable(t, prefix)
        ensures ReverseTable(t, prefix)[CodeTable(t, prefix)[c]] == c
      {
        if c !in CodeTable(r, p1) {
          var w := CodeTable(l, p0)[c];
          if w in ReverseTable(r, p1) {
            Diverge(prefix, w, w);
          }
        }
      }
      forall w | w in ReverseTable(t, prefix)
        ensures ReverseTable(t, prefix)[w] in CodeTable(t, prefix)
        ensures CodeTable(t, prefix)[ReverseTable(t, prefix)[w]] == w
      {
        if w !in ReverseTable(r, p1) {
          var c := ReverseTable(l, p0)[w];
          assert c in Symbols(l);
        }
      }
  }

  /** No character's code is a prefix of another character's code. */
  lemma CodesPrefixFree(t: Node)
    requires NoRepeats(t)
    ensures forall c, d :: c in CodeTable(t, []) && d in CodeTable(t, []) && c != d ==>
      !(CodeTable(t, []) [c] <= CodeTable(t, [])[d])
  {
    TablesAreInverse(t, []);
    ReverseTablePrefixFree(t, []);
  }

  // ---------------------------------------------------------------------------
  // Encoding and decoding

  /** The join of the characters' codes, in the order of the text.  It is
      empty exactly when every character of the text has the empty code. */
  function Encode(text: string, codes: map<char, string>): (bits: string)
    requires forall c :: c in text ==> c in codes
    ensures bits == [] <==> forall c :: c in text ==> codes[c] == []
  {
    if text == [] then [] else codes[text[0]] + Encode(text[1..], codes)
  }

  /** The encoding reads only the codes of the text's own characters. */
  lemma {:induction false} EncodeAgrees(text: string, codes: map<char, string>, other: map<char, string>)
    requires forall c :: c in text ==> c in codes && c in other && codes[c] == other[c]
    ensures Encode(text, codes) == Encode(text, other)
  {
    if text != [] {
      assert forall c :: c in text[1..] ==> c in text;
      EncodeAgrees(text[1..], codes, other);
    }
  }

  /** Encoding a concatenation concatenates the encodings. */
  lemma {:induction false} EncodeAppend(a: string, b: string, codes: map<char, string>)
    requires forall c :: c in a + b ==> c in codes
    ensures Encode(a + b, codes) == Encode(a, codes) + Encode(b, codes)
  {
    if a == [] {
      assert a + b == b;
    } else {
      assert (a + b)[0] == a[0] && (a + b)[1..] == a[1..] + b;
      EncodeAppend(a[1..], b, codes);
      calc {
        Encode(a + b, codes);
        codes[a[0]] + Encode(a[1..] + b, codes);
        codes[a[0]] + (Encode(a[1..], codes) + Encode(b, codes));
        (codes[a[0]] + Encode(a[1..], codes)) + Encode(b, codes);
      }
    }
  }

  /** When no code is empty, the encoding has at least one bit per character. */
  lemma {:induction false} EncodeLengthBound(text: string, codes: map<char, string>)
    requires forall c :: c in text ==> c in codes && codes[c] != []
    ensures |Encode(text, codes)| >= |text|
  {
    if text != [] {
      EncodeLengthBound(text[1..], codes);
    }
  }

  // ---------------------------------------------------------------------------
  // The length of an encoding

  /** The characters of `text` that are in `s`, in order. */
  function Keep(text: string, s: multiset<char>): (kept: string)
    ensures forall c :: multiset(kept)[c] == if c in s then multiset(text)[c] else 0
  {
    if text == [] then []
    else
      assert text == [text[0]] + text[1..];
      (if text[0] in s then [text[0]] else []) + Keep(text[1..], s)
  }

  /** Each leaf's count times its depth, summed: the number of bits its
      occurrences take when every code is the path to its leaf. */
  function PathWeight(t: Node): nat {
    match t
    case Leaf(_, _) => 0
    case Internal(_, l, r) => PathWeight(l) + PathWeight(r) + |Occurrences(l)| + |Occurrences(r)|
  }

  /** The counts of the internal nodes, summed. */
  function InternalWeight(t: Node): nat {
    match t
    case Leaf(_, _) => 0
    case Internal(f, l, r) => f + InternalWeight(l) + InternalWeight(r)
  }

  /** In a well-formed tree the two weights agree: each internal node counts
      every occurrence below it once, one per level it sits above a leaf. */
  lemma {:induction false} PathWeightIsInternalWeight(t: Node)
    requires WellFormed(t)
    ensures PathWeight(t) == InternalWeight(t)
  {
    match t
    case Leaf(_, _) =>
    case Internal(_, l, r) =>
      PathWeightIsInternalWeight(l);
      PathWeightIsInternalWeight(r);
      FreqIsOccurrenceCount(l);
      FreqIsOccurrenceCount(r);
  }

  /** Encoding a text of one repeated character with that character's code. */
  lemma {:induction false} UniformEncodeLength(text: string, c: char, code: string)
    requires forall x :: x in text ==> x == c
    ensures |Encode(text, map[c := code])| == |code| * |text|
  {
    if text != [] {
      assert text[0] in text;
      assert forall x :: x in text[1..] ==> x in text;
      UniformEncodeLength(text[1..], c, code);
      assert |Encode(text, map[c := code])| == |code| + |Encode(text[1..], map[c := code])|;
      ScaleStep(|code|, |text[1..]|);
    }
  }

  lemma ScaleStep(k: nat, n: nat)
    ensures k * (n + 1) == k + k * n
  {
  }

  /** Below an internal node the encoding's length splits into what the
      characters of each subtree take. */
  lemma {:induction false} EncodeLengthSplits(t: Node, prefix: string, text: string)
    requires t.Internal? && NoRepeats(t)
    requires forall c :: c in text ==> c in Symbols(t)
    ensures forall c :: c in text ==> c in CodeTable(t, prefix)
    ensures forall c :: c in Keep(text, Symbols(t.left)) ==> c in CodeTable(t.left, prefix + "0")
    ensures forall c :: c in Keep(text, Symbols(t.right)) ==> c in CodeTable(t.right, prefix + "1")
    ensures |Encode(text, CodeTable(t, prefix))|
         == |Encode(Keep(text, Symbols(t.left)), CodeTable(t.left, prefix + "0"))|
          + |Encode(Keep(text, Symbols(t.right)), CodeTable(t.right, prefix + "1"))|
  {
    var l, r := t.left, t.right;
    var p0, p1 := prefix + "0", prefix + "1";
    CodeTableKeys(t, prefix);
    KeptCovered(l, p0, text);
    KeptCovered(r, p1, text);
    if text != [] {
      var c, rest := text[0], text[1..];
      assert forall x :: x in rest ==> x in text;
      EncodeLengthSplits(t, prefix, rest);
      assert c in Symbols(t);
      ChildrenNoRepeats(t);
      if c in Symbols(l) {
        EncodeStepIntoChild(t, prefix, text, l, p0, r);
      } else {
        EncodeStepIntoChild(t, prefix, text, r, p1, l);
      }
    }
  }

  /** The first character of the text belongs to the subtree `here`: its
      code in the whole table is its code there, and it is kept for `here`
      and dropped for `there`. */
  lemma EncodeStepIntoChild(t: Node, prefix: string, text: string, here: Node, p: string, there: Node)
    requires t.Internal? && text != []
    requires || (here == t.left && p == prefix + "0" && there == t.right)
             || (here == t.right && p == prefix + "1" && there == t.left)
    requires forall c :: c in Symbols(here) ==> c !in Symbols(there)
    requires text[0] in Symbols(here)
    requires forall c :: c in text ==> c in CodeTable(t, prefix)
    requires forall c :: c in Keep(text, Symbols(here)) ==> c in CodeTable(here, p)
    ensures text[0] in CodeTable(here, p) && CodeTable(t, prefix)[text[0]] == CodeTable(here, p)[text[0]]
    ensures Keep(text, Symbols(here)) == [text[0]] + Keep(text[1..], Symbols(here))
    ensures Keep(text, Symbols(there)) == Keep(text[1..], Symbols(there))
  {
    CodeTableKeys(here, p);
    CodeTableKeys(there, if p == prefix + "0" then prefix + "1" else prefix + "0");
  }

  /** The kept characters of a subtree all have codes in its table. */
  lemma KeptCovered(t: Node, prefix: string, text: string)
    ensures forall c :: c in Keep(text, Symbols(t)) ==> c in CodeTable(t, prefix)
  {
    CodeTableKeys(t, prefix);
    forall c | c in Keep(text, Symbols(t)) ensures c in Symbols(t) {
      assert multiset(Keep(text, Symbols(t)))[c] > 0;
    }
  }

  /** The length of an encoding: for a text whose occurrences are exactly
      the tree's, each occurrence takes the prefix plus its leaf's depth in
      bits, which sums to the prefix's share plus the path weight. */
  lemma {:induction false} EncodedLength(t: Node, prefix: string, text: string)
    requires NoRepeats(t) && Occurrences(t) == multiset(text)
    ensures forall c :: c in text ==> c in CodeTable(t, prefix)
    ensures |Encode(text, CodeTable(t, prefix))| == |prefix| * |text| + PathWeight(t)
  {
    OccursOnlyOnLeaves(t, prefix, text);
    match t
    case Leaf(c, _) =>
      forall x | x in text ensures x == c {
        assert multiset(text)[x] > 0;
      }
      UniformEncodeLength(text, c, prefix);
    case Internal(_, l, r) =>
      var textL, textR := Keep(text, Symbols(l)), Keep(text, Symbols(r));
      SubtreeOccurrences(t, text);
      ChildrenNoRepeats(t);
      EncodedLength(l, prefix + "0", textL);
      EncodedLength(r, prefix + "1", textR);
      EncodeLengthSplits(t, prefix, text);
      var k, a, b := |prefix|, |textL|, |textR|;
      assert a == |Occurrences(l)| && b == |Occurrences(r)|;
      assert a + b == |text| by {
        assert |multiset(textL)| + |multiset(textR)| == |multiset(text)|;
      }
      SplitArith(k, a, b);
      assert |Encode(text, CodeTable(t, prefix))| == ((k + 1) * a + PathWeight(l)) + ((k + 1) * b + PathWeight(r));
  }

  lemma SplitArith(k: nat, a: nat, b: nat)
    ensures (k + 1) * a + (k + 1) * b == k * (a + b) + a + b
  {
  }

  /** Every character of a text whose occurrences are the tree's has a code. */
  lemma OccursOnlyOnLeaves(t: Node, prefix: string, text: string)
    requires Occurrences(t) == multiset(text)
    ensures forall c :: c in text ==> c in Symbols(t) && c in CodeTable(t, prefix)
  {
    CodeTableKeys(t, prefix);
    forall c | c in text ensures c in Symbols(t) {
      if c !in Symbols(t) {
        OccurrencesOnlyOfSymbols(t, c);
      }
    }
  }

  /** Keeping the characters of one subtree keeps exactly that subtree's
      occurrences. */
  lemma SubtreeOccurrences(t: Node, text: string)
    requires t.Internal? && NoRepeats(t) && Occurrences(t) == multiset(text)
    ensures Occurrences(t.left) == multiset(Keep(text, Symbols(t.left)))
    ensures Occurrences(t.right) == multiset(Keep(text, Symbols(t.right)))
  {
    ChildrenNoRepeats(t);
    forall c ensures Occurrences(t.left)[c] == multiset(Keep(text, Symbols(t.left)))[c]
                  && Occurrences(t.right)[c] == multiset(Keep(text, Symbols(t.right)))[c]
    {
      if c !in Symbols(t.left) { OccurrencesOnlyOfSymbols(t.left, c); }
      if c !in Symbols(t.right) { OccurrencesOnlyOfSymbols(t.right, c); }
    }
  }

  /** The decoder: each bit is appended to the buffer; when the buffer is a
      key of the reverse mapping its character is emitted and the buffer is
      emptied.  Whatever is left in the buffer at the end is dropped, and
      each character emitted consumes at least one bit. */
  function Decode(bits: string, reverseMapping: map<string, char>, buffer: string): (text: string)
    ensures |text| <= |bits|
    decreases |bits|
  {
    if bits == [] then []
    else
      var current := buffer + [bits[0]];
      if current in reverseMapping then [reverseMapping[current]] + Decode(bits[1..], reverseMapping, [])
      else Decode(bits[1..], reverseMapping, current)
  }

  /** Feeding the rest of a code whose proper prefixes are not keys emits
      exactly that code's character and leaves the buffer empty. */
  lemma {:induction false} DecodeOneCode(w: string, k: nat, rest: string, reverseMapping: map<string, char>)
    requires k < |w| && w in reverseMapping
    requires forall j :: k < j < |w| ==> w[..j] !in reverseMapping
    ensures Decode(w[k..] + rest, reverseMapping, w[..k])
         == [reverseMapping[w]] + Decode(rest, reverseMapping, [])
    decreases |w| - k
  {
    var bits := w[k..] + rest;
    assert bits[0] == w[k] && w[..k] + [w[k]] == w[..k + 1];
    if k + 1 == |w| {
      assert w[..k + 1] == w && bits[1..] == rest;
    } else {
      assert bits[1..] == w[k + 1..] + rest;
      DecodeOneCode(w, k + 1, rest, reverseMapping);
    }
  }

  /** Feeding bits none of whose extensions of the buffer is a key emits nothing. */
  lemma {:induction false} DecodeNoMatch(u: string, k: nat, reverseMapping: map<string, char>)
    requires k <= |u|
    requires forall j :: k < j <= |u| ==> u[..j] !in reverseMapping
    ensures Decode(u[k..], reverseMapping, u[..k]) == []
    decreases |u| - k
  {
    if k < |u| {
      assert u[k..][0] == u[k] && u[..k] + [u[k]] == u[..k + 1] && u[k..][1..] == u[k + 1..];
      DecodeNoMatch(u, k + 1, reverseMapping);
    }
  }

  /** Facts about a tree with at least two leaves and no repeated character
      that the round trip needs: every code is non-empty, is a key of the
      reverse table mapping back to its character, and has no proper prefix
      among the keys. */
  lemma CodeDecodes(t: Node, c: char)
    requires t.Internal? && NoRepeats(t) && c in Symbols(t)
    ensures c in CodeTable(t, [])
    ensures var w := CodeTable(t, []) [c];
      && |w| >= 1 && w in ReverseTable(t, []) && ReverseTable(t, [])[w] == c
      && forall j :: 0 < j < |w| ==> w[..j] !in ReverseTable(t, [])
  {
    CodeTableKeys(t, []);
    TablesAreInverse(t, []);
    ReverseTablePrefixFree(t, []);
    var w := CodeTable(t, [])[c];
    forall j | 0 < j < |w| ensures w[..j] !in ReverseTable(t, []) {
      assert w[..j] <= w && w[..j] != w;
    }
  }

  /** Decoding what a tree's code encodes gives the text back, and then goes
      on with whatever follows. */
  lemma RoundTripThen(t: Node, text: string, rest: string)
    requires t.Internal? && NoRepeats(t)
    requires forall c :: c in text ==> c in Symbols(t)
    ensures forall c :: c in text ==> c in CodeTable(t, [])
    ensures Decode(Encode(text, CodeTable(t, [])) + rest, ReverseTable(t, []), [])
         == text + Decode(rest, ReverseTable(t, []), [])
  {
    CodeTableKeys(t, []);
    var codes, reverse := CodeTable(t, []), ReverseTable(t, []);
    forall c | c in text ensures DecodesAtHead(codes, reverse, c) {
      forall tail ensures Decode(codes[c] + tail, reverse, []) == [c] + Decode(tail, reverse, []) {
        DecodeFirstCode(t, c, tail);
      }
    }
    DecodeJoin(codes, reverse, text, rest);
  }

  /** The code of `c`, at the head of any stream, decodes to `c` and leaves
      the buffer empty. */
  ghost predicate DecodesAtHead(codes: map<char, string>, reverse: map<string, char>, c: char)
    requires c in codes
  {
    forall tail :: Decode(codes[c] + tail, reverse, []) == [c] + Decode(tail, reverse, [])
  }

  /** Over any tables in which each character's code decodes at the head of
      the stream, the join decodes to the text. */
  lemma {:induction false} DecodeJoin(codes: map<char, string>, reverse: map<string, char>, text: string, rest: string)
    requires forall c :: c in text ==> c in codes && DecodesAtHead(codes, reverse, c)
    ensures Decode(Encode(text, codes) + rest, reverse, []) == text + Decode(rest, reverse, [])
  {
    if text == [] {
      assert Encode(text, codes) + rest == rest;
    } else {
      assert forall c :: c in text[1..] ==> c in text;
      DecodeJoin(codes, reverse, text[1..], rest);
      EncodeHead(text, codes, rest);
      assert text[0] in text;
      JoinStep(codes, reverse, text, Encode(text[1..], codes) + rest, Decode(rest, reverse, []));
    }
  }

  /** The join of a non-empty text starts with its first character's code. */
  lemma EncodeHead(text: string, codes: map<char, string>, rest: string)
    requires text != [] && forall c :: c in text ==> c in codes
    ensures Encode(text, codes) + rest == codes[text[0]] + (Encode(text[1..], codes) + rest)
  {
  }

  /** One step of DecodeJoin: the first character's code decodes first, and
      the bits after it decode to the rest of the text. */
  lemma JoinStep(codes: map<char, string>, reverse: map<string, char>, text: string, tail: string, after: string)
    requires text != [] && text[0] in codes && DecodesAtHead(codes, reverse, text[0])
    requires Decode(tail, reverse, []) == text[1..] + after
    ensures Decode(codes[text[0]] + tail, reverse, []) == text + after
  {
    assert Decode(codes[text[0]] + tail, reverse, []) == [text[0]] + Decode(tail, reverse, []);
    assert [text[0]] + (text[1..] + after) == text + after;
  }

  /** The code of a character at the head of the stream decodes to that
      character, with the buffer empty again after it. */
  lemma DecodeFirstCode(t: Node, c: char, tail: string)
    requires t.Internal? && NoRepeats(t) && c in Symbols(t)
    ensures c in CodeTable(t, [])
    ensures Decode(CodeTable(t, [])[c] + tail, ReverseTable(t, []), [])
         == [c] + Decode(tail, ReverseTable(t, []), [])
  {
    CodeDecodes(t, c);
    var w := CodeTable(t, [])[c];
    DecodeOneCode(w, 0, tail, ReverseTable(t, []));
    assert w[0..] == w && w[..0] == [];
  }

  /** The round trip: with at least two leaves and no repeated character,
      decoding the encoding of any text over the tree's characters gives
      the text back. */
  lemma RoundTrip(t: Node, text: string)
    requires t.Internal? && NoRepeats(t)
    requires forall c :: c in text ==> c in Symbols(t)
    ensures forall c :: c in text ==> c in CodeTable(t, [])
    ensures Decode(Encode(text, CodeTable(t, [])), ReverseTable(t, []), []) == text
  {
    RoundTripThen(t, text, []);
    assert Encode(text, CodeTable(t, [])) + [] == Encode(text, CodeTable(t, []));
  }

  /** A stream cut off inside a code decodes, without complaint, to the
      characters whose codes were complete: the fragment is dropped. */
  lemma TruncatedFragmentIsDropped(t: Node, text: string, c: char, m: nat)
    requires t.Internal? && NoRepeats(t)
    requires forall x :: x in text ==> x in Symbols(t)
    requires c in CodeTable(t, [])
    requires m < |CodeTable(t, [])[c]|
    ensures forall x :: x in text ==> x in CodeTable(t, [])
    ensures Decode(Encode(text, CodeTable(t, [])) + CodeTable(t, [])[c][..m], ReverseTable(t, []), [])
         == text
  {
    var w := CodeTable(t, [])[c];
    CodeTableKeys(t, []);
    CodeDecodes(t, c);
    RoundTripThen(t, text, w[..m]);
    forall j | 0 < j <= m ensures w[..m][..j] !in ReverseTable(t, []) {
      assert w[..m][..j] == w[..j];
    }
    DecodeNoMatch(w[..m], 0, ReverseTable(t, []));
    assert w[..m][0..] == w[..m] && w[..m][..0] == [];
    assert text + [] == text;
  }

  /** With a single leaf the only code is empty, so every text over that
      character encodes to nothing. */
  lemma {:induction false} SingleLeafEncodesToNothing(c: char, f: nat, text: string)
    requires forall x :: x in text ==> x == c
    ensures CodeTable(Leaf(c, f), []) == map[c := []]
    ensures Encode(text, CodeTable(Leaf(c, f), [])) == []
  {
    if text != [] {
      assert text[0] in text;
      assert forall x :: x in text[1..] ==> x in text;
      SingleLeafEncodesToNothing(c, f, text[1..]);
    }
  }

  /** An empty key never matches: the buffer is never empty when it is
      looked up, so a single-leaf reverse mapping decodes everything to
      nothing. */
  lemma {:induction false} EmptyCodeNeverMatches(bits: string, c: char, buffer: string)
    ensures Decode(bits, map[[] := c], buffer) == []
    decreases |bits|
  {
    if bits != [] {
      EmptyCodeNeverMatches(bits[1..], c, buffer + [bits[0]]);
    }
  }
}
