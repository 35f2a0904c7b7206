/** A writer of devicetree blobs, as a reference: every tree has a written form, and reading that form gives the tree
    back (section 5.4 of the Devicetree Specification v0.4; src/kernel/devicetree/mod.rs, `from_fdt`). */
module FdtWriter {
  import opened Basics
  import opened StructureBlock
  import opened FdtFormat
  import opened DeviceTree

  // ----- the strings block -----

  /** Names one after another, each with its NUL. */
  function Table(names: seq<Str>): seq<byte>
  {
    if names == [] then [] else names[0] + [0] + Table(names[1..])
  }

  function OffsetOf(names: seq<Str>, s: Str): nat
  {
    if names == [] || names[0] == s then 0 else |names[0]| + 1 + OffsetOf(names[1..], s)
  }

  predicate HoldsAt(b: seq<byte>, off: nat, s: Str)
  {
    off + |s| < |b| && b[off..off + |s| + 1] == s + [0]
  }

  lemma HoldsLater(a: seq<byte>, b: seq<byte>, off: nat, s: Str)
    requires HoldsAt(b, off, s)
    ensures HoldsAt(a + b, |a| + off, s)
  {
    assert (a + b)[|a| + off..|a| + off + |s| + 1] == b[off..off + |s| + 1];
  }

  lemma {:induction false} TableHolds(names: seq<Str>, s: Str)
    requires s in names
    ensures HoldsAt(Table(names), OffsetOf(names, s), s)
    decreases |names|
  {
    if names[0] == s {
      assert Table(names)[..|s| + 1] == s + [0];
    } else {
      TableHolds(names[1..], s);
      HoldsLater(names[0] + [0], Table(names[1..]), OffsetOf(names[1..], s), s);
    }
  }

  lemma TableReads(names: seq<Str>, s: Str)
    requires s in names && 0 !in s
    ensures CStr(Table(names), OffsetOf(names, s)) == Some(s) && OffsetOf(names, s) < |Table(names)|
  {
    TableHolds(names, s);
    var b, off := Table(names), OffsetOf(names, s);
    hide Table, OffsetOf;
    var held := b[off..off + |s| + 1];
    assert held[|s|] == 0 && b[off + |s|] == 0;
    forall i | 0 <= i < |s|
      ensures b[off + i] == s[i]
    {
      assert held[i] == s[i];
    }
    CStrReads(b, off, s);
  }

  // ----- the tokens of a tree -----

  function PropTokens(props: seq<Prop>, names: seq<Str>): seq<Token>
  {
    if props == [] then []
    else [Token.Property(OffsetOf(names, props[0].name), props[0].value)] + PropTokens(props[1..], names)
  }

  function NodeTokens(n: Node, names: seq<Str>): seq<Token>
    decreases n, 1
  {
    [Token.Begin(n.name)] + (PropTokens(n.props, names) + (AllTokens(n.children, names) + [Token.End]))
  }

  function AllTokens(ns: seq<Node>, names: seq<Str>): seq<Token>
    decreases ns, 0
  {
    if ns == [] then [] else NodeTokens(ns[0], names) + AllTokens(ns[1..], names)
  }

  /** What the format asks of a tree: real names, the property names among `names`, values whose size fits a word. */
  ghost predicate Writable(n: Node, names: seq<Str>)
  {
    && GoodName(n.name)
    && (forall p | p in n.props :: GoodName(p.name) && p.name in names && |p.value| < 0x1_0000_0000)
    && (forall c | c in n.children :: Writable(c, names))
  }

  lemma {:induction false} EventsConcat(a: seq<Token>, b: seq<Token>, strings: seq<byte>)
    requires AllEncodable(a, strings) && AllEncodable(b, strings)
    ensures AllEncodable(a + b, strings) && Events(a + b, strings) == Events(a, strings) + Events(b, strings)
    decreases |a|
  {
    hide Encodable;
    if a == [] {
      assert a + b == b;
    } else {
      TailEncodable(a, strings);
      EventsConcat(a[1..], b, strings);
      assert (a + b)[1..] == a[1..] + b;
    }
  }

  function EventOf(t: Token, strings: seq<byte>): Event
    requires !t.Nop? && (t.Property? ==> CStr(strings, t.nameOffset).Some?)
  {
    match t
    case Begin(name) => Open(name)
    case Property(off, v) => Attribute(Prop(CStr(strings, off).value, v))
    case _ => Close
  }

  lemma OneEvent(t: Token, strings: seq<byte>)
    requires Encodable(t, strings) && !t.Nop?
    ensures AllEncodable([t], strings) && Events([t], strings) == [EventOf(t, strings)]
  {
    assert [t][1..] == [];
  }

  lemma {:induction false} PropsWrite(props: seq<Prop>, names: seq<Str>)
    requires |Table(names)| <= 0x1_0000_0000
    requires forall p | p in props :: GoodName(p.name) && p.name in names && |p.value| < 0x1_0000_0000
    ensures AllEncodable(PropTokens(props, names), Table(names))
    ensures Events(PropTokens(props, names), Table(names)) == Attributes(props)
    decreases |props|
  {
    if props != [] {
      var p, strings := props[0], Table(names);
      assert p in props;
      TableReads(names, p.name);
      var t := Token.Property(OffsetOf(names, p.name), p.value);
      OneEvent(t, strings);
      PropsWrite(props[1..], names);
      EventsConcat([t], PropTokens(props[1..], names), strings);
    }
  }

  lemma {:induction false} NodeWrites(n: Node, names: seq<Str>)
    requires Writable(n, names) && |Table(names)| <= 0x1_0000_0000
    ensures AllEncodable(NodeTokens(n, names), Table(names)) && Events(NodeTokens(n, names), Table(names)) == Flatten(n)
    decreases n, 1
  {
    hide Encodable, Table;
    var strings := Table(names);
    assert Encodable(Token.Begin(n.name), strings) && Encodable(Token.End, strings) by { BothEnds(n.name, strings); }
    OneEvent(Token.Begin(n.name), strings);
    OneEvent(Token.End, strings);
    PropsWrite(n.props, names);
    ChildrenWrite(n.children, names);
    var body := AllTokens(n.children, names) + [Token.End];
    EventsConcat(AllTokens(n.children, names), [Token.End], strings);
    EventsConcat(PropTokens(n.props, names), body, strings);
    EventsConcat([Token.Begin(n.name)], PropTokens(n.props, names) + body, strings);
  }

  lemma BothEnds(name: Str, strings: seq<byte>)
    requires GoodName(name)
    ensures Encodable(Token.Begin(name), strings) && Encodable(Token.End, strings)
  {
  }

  lemma {:induction false} ChildrenWrite(ns: seq<Node>, names: seq<Str>)
    requires (forall n | n in ns :: Writable(n, names)) && |Table(names)| <= 0x1_0000_0000
    ensures AllEncodable(AllTokens(ns, names), Table(names)) && Events(AllTokens(ns, names), Table(names)) == FlattenAll(ns)
    decreases ns, 0
  {
    hide Encodable, Writable, Table;
    if ns != [] {
      NodeWrites(ns[0], names);
      ChildrenWrite(ns[1..], names);
      EventsConcat(NodeTokens(ns[0], names), AllTokens(ns[1..], names), Table(names));
    }
  }

  // ----- main result -----

  ghost function BlobOf(t: Node, names: seq<Str>): Blob
    requires Writable(t, names) && |Table(names)| <= 0x1_0000_0000
  {
    NodeWrites(t, names);
    Blob(Encode(NodeTokens(t, names), Table(names)), Table(names))
  }

  /** Writing any tree, with a strings block that covers its property names, and reading it back returns the tree and its phandles if and only if every node name has at most 51
      bytes. */
  lemma WriteThenRead(t: Node, names: seq<Str>)
    requires Writable(t, names) && |Table(names)| <= 0x1_0000_0000
    ensures Parse(BlobOf(t, names), Cursor(At(0), 0, false), EMPTY) == Tree(t, PhandlesOf(t, [], map[])) <==> NamesFit(t)
  {
    hide Flatten, NamesFit, PhandlesOf, Encode, Writable, Table, AllEncodable, Parse;
    NodeWrites(t, names);
    var blob, toks := BlobOf(t, names), NodeTokens(t, names);
    assert blob.structure[0..] == blob.structure;
    FromFdtAccepts(blob, toks, t);
    assert Events(toks, blob.strings) == Attributes([]) + (Flatten(t) + []);
  }
}
