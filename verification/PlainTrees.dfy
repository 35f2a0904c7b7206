/** Trees whose names are plain ASCII, as real devicetrees have them, and one blob byte for byte
    (src/kernel/devicetree/mod.rs, `from_fdt`). */
module PlainTrees {
  import opened Basics
  import opened StructureBlock
  import opened FdtFormat
  import opened DeviceTree
  import opened FdtWriter
  import opened Utf8Text

  // ----- trees with plain names -----

  /** Names as devicetrees have them: bytes from 1 to 127. */
  predicate Plain(s: Str)
  {
    forall x | x in s :: 0 < x < 0x80
  }

  ghost predicate PlainTree(n: Node, names: seq<Str>)
  {
    && Plain(n.name)
    && (forall p | p in n.props :: Plain(p.name) && p.name in names && |p.value| < 0x1_0000_0000)
    && (forall c | c in n.children :: PlainTree(c, names))
  }

  lemma {:induction false} PlainIsWritable(n: Node, names: seq<Str>)
    requires PlainTree(n, names)
    ensures Writable(n, names)
  {
    AsciiIsUtf8(n.name);
    forall p | p in n.props
      ensures GoodName(p.name)
    {
      AsciiIsUtf8(p.name);
    }
    forall c | c in n.children
      ensures Writable(c, names)
    {
      PlainIsWritable(c, names);
    }
  }

  /** Every tree with plain names of at most 51 bytes comes back from its written form, with its phandles. */
  lemma PlainTreesReadBack(t: Node, names: seq<Str>)
    requires PlainTree(t, names) && NamesFit(t) && |Table(names)| <= 0x1_0000_0000
    ensures Writable(t, names)
    ensures Parse(BlobOf(t, names), Cursor(At(0), 0, false), EMPTY) == Tree(t, PhandlesOf(t, [], map[]))
  {
    PlainIsWritable(t, names);
    WriteThenRead(t, names);
  }

  /** The limit the word loop sets to the names of nodes, by number. */
  lemma NameLimit(n: Node)
    ensures NamesFit(n) <==> |n.name| <= 51 && forall c | c in n.children :: NamesFit(c)
  {
  }

  // ----- one blob, byte for byte -----

  const CPUS: Str := [99, 112, 117, 115]
  const SMALL_TREE: Node := Node([], [Prop(PHANDLE, [0, 0, 0, 7])], [Node(CPUS, [], [])])
  const SMALL_BLOCK: seq<byte> :=
    [0, 0, 0, 1, 0, 0, 0, 0] +
    ([0, 0, 0, 3, 0, 0, 0, 4, 0, 0, 0, 0, 0, 0, 0, 7] +
     ([0, 0, 0, 1, 99, 112, 117, 115, 0, 0, 0, 0] +
      ([0, 0, 0, 2] + ([0, 0, 0, 2] + [0, 0, 0, 9]))))
  const SMALL_STRINGS: seq<byte> := [112, 104, 97, 110, 100, 108, 101, 0]

  lemma OneMoreToken(toks: seq<Token>, strings: seq<byte>)
    requires AllEncodable(toks, strings) && toks != []
    ensures AllEncodable(toks[1..], strings) && Encodable(toks[0], strings)
    ensures Encode(toks, strings) == EncodeToken(toks[0], Encode(toks[1..], strings))
  {
    TailEncodable(toks, strings);
  }

  lemma WordBytes()
    ensures Be32(0) == [0, 0, 0, 0] && Be32(1) == [0, 0, 0, 1] && Be32(2) == [0, 0, 0, 2]
    ensures Be32(3) == [0, 0, 0, 3] && Be32(4) == [0, 0, 0, 4]
  {
  }

  lemma RootBytes(rest: seq<byte>)
    ensures EncodeToken(Token.Begin([]), rest) == [0, 0, 0, 1, 0, 0, 0, 0] + rest
  {
    WordBytes();
    hide Be32;
    assert Zeros(4) == [0, 0, 0, 0];
  }

  lemma PropertyBytes(rest: seq<byte>)
    ensures EncodeToken(Token.Property(0, [0, 0, 0, 7]), rest) == [0, 0, 0, 3, 0, 0, 0, 4, 0, 0, 0, 0, 0, 0, 0, 7] + rest
  {
    WordBytes();
    hide Be32;
    assert Zeros(0) == [];
  }

  lemma ChildBytes(rest: seq<byte>)
    ensures EncodeToken(Token.Begin(CPUS), rest) == [0, 0, 0, 1, 99, 112, 117, 115, 0, 0, 0, 0] + rest
  {
    WordBytes();
    hide Be32;
    assert Zeros(4) == [0, 0, 0, 0];
  }

  lemma EndBytes(rest: seq<byte>)
    ensures EncodeToken(Token.End, rest) == [0, 0, 0, 2] + rest
  {
    WordBytes();
    hide Be32;
  }

  lemma SmallTokens()
    ensures NodeTokens(SMALL_TREE, [PHANDLE]) == [Token.Begin([]), Token.Property(0, [0, 0, 0, 7]), Token.Begin(CPUS), Token.End, Token.End]
    ensures Table([PHANDLE]) == SMALL_STRINGS
  {
    var names := [PHANDLE];
    assert names[1..] == [];
    assert SMALL_TREE.props[1..] == [] && SMALL_TREE.children[1..] == [];
    assert PropTokens([], names) == [] && AllTokens([], names) == [];
    assert NodeTokens(Node(CPUS, [], []), names) == [Token.Begin(CPUS), Token.End];
  }

  lemma SmallEncoding(toks: seq<Token>)
    requires toks == [Token.Begin([]), Token.Property(0, [0, 0, 0, 7]), Token.Begin(CPUS), Token.End, Token.End]
    requires AllEncodable(toks, SMALL_STRINGS)
    ensures Encode(toks, SMALL_STRINGS) == SMALL_BLOCK
  {
    hide Encode, AllEncodable, EncodeToken;
    var s := SMALL_STRINGS;
    var t1 := toks[1..];
    var t2 := t1[1..];
    var t3 := t2[1..];
    var t4 := t3[1..];
    OneMoreToken(toks, s);
    OneMoreToken(t1, s);
    OneMoreToken(t2, s);
    OneMoreToken(t3, s);
    OneMoreToken(t4, s);
    assert t4[1..] == [];
    NoTokens(s);
    EndBytes(Encode([], s));
    EndBytes(Encode(t4, s));
    ChildBytes(Encode(t3, s));
    PropertyBytes(Encode(t2, s));
    RootBytes(Encode(t1, s));
  }

  lemma NoTokens(s: seq<byte>)
    ensures AllEncodable([], s) && Encode([], s) == [0, 0, 0, 9]
  {
  }

  lemma SmallPhandles()
    ensures PhandlesOf(SMALL_TREE, [], map[]) == map[7 := []]
  {
    var p, child := Prop(PHANDLE, [0, 0, 0, 7]), Node(CPUS, [], []);
    var m: map<nat, Place> := map[7 := []];
    assert [p][1..] == [] && [child][1..] == [] && [] + [0] == [0];
    assert Word(p.value, 0) == 7;
    assert Record(map[], p, []) == m;
    assert RecordAll(map[], [p], []) == RecordAll(m, [], []) == m;
    assert PhandlesOf(child, [0], m) == m;
    assert PhandlesOfAll([child], [], 0, m) == PhandlesOfAll([], [], 1, m) == m;
  }

  /** A root with a phandle of 7 and one child, "cpus", as bytes (section 5.4 of the Devicetree Specification v0.4). */
  lemma SmallBlobReads()
    ensures Parse(Blob(SMALL_BLOCK, SMALL_STRINGS), Cursor(At(0), 0, false), EMPTY) == Tree(SMALL_TREE, map[7 := []])
  {
    SmallTokens();
    SmallPhandles();
    var child := Node(CPUS, [], []);
    assert PlainTree(child, [PHANDLE]) && NamesFit(child);
    assert PlainTree(SMALL_TREE, [PHANDLE]) && NamesFit(SMALL_TREE);
    hide Parse, Encode, PhandlesOf, NodeTokens, Table;
    PlainTreesReadBack(SMALL_TREE, [PHANDLE]);
    NodeWrites(SMALL_TREE, [PHANDLE]);
    SmallEncoding(NodeTokens(SMALL_TREE, [PHANDLE]));
  }
}
