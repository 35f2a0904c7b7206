/** Reading a flattened tree in place: child, property and path iterators over the blob
    (src/kernel/devicetree/fdt/raw_node.rs, fdt/raw_prop.rs, fdt/mod.rs), against the tree built from it. */
module FdtLookup {
  import opened Basics
  import opened StructureBlock
  import opened FdtFormat
  import opened DeviceTree

  // ----- node iteration -----

  datatype NodeItem = Raw(node: RawNode) | NoNode | NodeFault

  /** `NodeIter::next`: nodes down to `maxDepth`, counting begins and ends. */
  function NodeNext(blob: Blob, c: Cursor, depth: int, maxDepth: int): (r: (Cursor, int, NodeItem))
    ensures r.2.Raw? ==> c.ptr.At? && r.0.ptr.At? && c.ptr.pos < r.0.ptr.pos <= |blob.structure|
    decreases if c.ptr.At? && c.ptr.pos <= |blob.structure| then |blob.structure| - c.ptr.pos else 0
  {
    if depth < 0 then (c, depth, NoNode)
    else
      var (next, item) := Step(blob, c);
      match item
      case Done => (next, depth, NoNode)
      case Error => (next, depth, NoNode)
      case Fault => (next, depth, NodeFault)
      case Yield(BeginNode(node)) =>
        if depth + 1 > maxDepth then NodeNext(blob, next, depth + 1, maxDepth) else (next, depth + 1, Raw(node))
      case Yield(EndNode) => NodeNext(blob, next, depth - 1, maxDepth)
      case Yield(PropEntry(_)) => (next, depth, NodeFault)
  }

  /** Everything the iterator yields from here; None when it faults. */
  function Nodes(blob: Blob, c: Cursor, depth: int, maxDepth: int): Option<seq<RawNode>>
    decreases if c.ptr.At? && c.ptr.pos <= |blob.structure| then |blob.structure| - c.ptr.pos else 0
  {
    var (next, depth', item) := NodeNext(blob, c, depth, maxDepth);
    match item
    case NoNode => Some([])
    case NodeFault => None
    case Raw(node) =>
      match Nodes(blob, next, depth', maxDepth)
      case None => None
      case Some(rest) => Some([node] + rest)
  }

  class NodeIter {
    const iter: StructureBlockIter
    var depth: int
    const maxDepth: int

    constructor (blob: Blob, token: Ptr, maxDepth: int)
      requires maxDepth > 0
      ensures iter.blob == blob && iter.Where() == Cursor(token, 0, true)
      ensures depth == 0 && this.maxDepth == maxDepth && fresh(iter)
    {
      iter := new StructureBlockIter(blob, token, true);
      depth := 0;
      this.maxDepth := maxDepth;
    }

    method Next() returns (item: NodeItem)
      modifies this, iter
      ensures item == NodeNext(iter.blob, old(iter.Where()), old(depth), maxDepth).2
      ensures item != NodeFault ==>
                iter.Where() == NodeNext(iter.blob, old(iter.Where()), old(depth), maxDepth).0
                && depth == NodeNext(iter.blob, old(iter.Where()), old(depth), maxDepth).1
    {
      ghost var b := iter.blob;
      while true
        invariant NodeNext(b, iter.Where(), depth, maxDepth) == NodeNext(b, old(iter.Where()), old(depth), maxDepth)
        decreases if iter.token.At? && iter.token.pos <= |b.structure| then |b.structure| - iter.token.pos else 0
      {
        if depth < 0 { return NoNode; }
        var entry := iter.Next();
        match entry {
          case Done => return NoNode;
          case Error => return NoNode;
          case Fault => return NodeFault;
          case Yield(BeginNode(node)) =>
            depth := depth + 1;
            if depth <= maxDepth { return Raw(node); }
          case Yield(EndNode) => depth := depth - 1;
          case Yield(PropEntry(_)) => return NodeFault;
        }
      }
    }
  }

  // ----- property iteration -----

  datatype PropItem = RawProp(prop: Prop) | NoProp | PropFault

  /** `PropIter::next`: the null pointer of a node without properties is read all the same. */
  function PropNext(blob: Blob, ptr: Ptr): (r: (Ptr, PropItem))
    ensures r.1.RawProp? ==> ptr.At? && r.0.At? && ptr.pos < r.0.pos <= |blob.structure|
  {
    if ptr.Null? then (ptr, PropFault)
    else match SkipNops(blob.structure, ptr.pos)
      case Null => (ptr, PropFault)
      case At(pos) =>
        if Word(blob.structure, pos) != FDT_PROP then (Null, NoProp)
        else match PropAt(blob, pos)
          case None => (ptr, PropFault)
          case Some(prop) => (At(PropEnd(blob.structure, pos)), RawProp(prop))
  }

  function Props(blob: Blob, ptr: Ptr): Option<seq<Prop>>
    decreases if ptr.At? && ptr.pos <= |blob.structure| then |blob.structure| - ptr.pos else 0
  {
    var (next, item) := PropNext(blob, ptr);
    match item
    case NoProp => Some([])
    case PropFault => None
    case RawProp(prop) =>
      match Props(blob, next)
      case None => None
      case Some(rest) => Some([prop] + rest)
  }

  class PropIter {
    const blob: Blob
    var token: Ptr

    constructor (blob: Blob, token: Ptr)
      ensures this.blob == blob && this.token == token
    {
      this.blob := blob;
      this.token := token;
    }

    method Next() returns (item: PropItem)
      modifies this
      ensures item == PropNext(blob, old(token)).1
      ensures item != PropFault ==> token == PropNext(blob, old(token)).0
    {
      var b := blob.structure;
      if token.Null? { return PropFault; }
      while true
        invariant token.At? && SkipNops(b, token.pos) == SkipNops(b, old(token.pos))
        decreases |b| - token.pos
      {
        if token.pos + 4 > |b| { return PropFault; }
        var t := Word(b, token.pos);
        if t == FDT_PROP { break; }
        if t != FDT_NOP {
          token := Null;
          return NoProp;
        }
        token := At(token.pos + 4);
      }
      var prop := PropAt(blob, token.pos);
      if prop.None? { return PropFault; }
      token := At(PropEnd(b, token.pos));
      item := RawProp(prop.value);
    }
  }

  // ----- a raw node and the tree node it stands for -----

  function BodyEvents(n: Node): seq<Event>
  {
    Attributes(n.props) + (FlattenAll(n.children) + [Close])
  }

  /** The raw node carries the name of `n` and points at the writing of its body. */
  ghost predicate Represents(blob: Blob, raw: RawNode, n: Node)
  {
    && raw.name == n.name && NamesFit(n)
    && exists body: seq<Token>, rest: seq<Event> ::
         AllEncodable(body, blob.strings) && PointsInto(raw, blob, body)
         && Events(body, blob.strings) == BodyEvents(n) + rest
  }

  function DropAttributes(evs: seq<Event>): (r: seq<Event>)
    ensures r == [] || !r[0].Attribute?
  {
    if evs != [] && evs[0].Attribute? then DropAttributes(evs[1..]) else evs
  }

  lemma {:induction false} EventsDropProps(toks: seq<Token>, strings: seq<byte>)
    requires AllEncodable(toks, strings)
    ensures AllEncodable(DropProps(toks), strings)
    ensures Events(DropProps(toks), strings) == DropAttributes(Events(toks, strings))
    decreases |toks|
  {
    if toks != [] {
      TailEncodable(toks, strings);
      if toks[0].Nop? || toks[0].Property? { EventsDropProps(toks[1..], strings); }
    }
  }

  lemma {:induction false} DropWrittenAttributes(props: seq<Prop>, rest: seq<Event>)
    ensures DropAttributes(Attributes(props) + rest) == DropAttributes(rest)
    decreases |props|
  {
    if props == [] {
      assert Attributes(props) + rest == rest;
    } else {
      assert (Attributes(props) + rest)[1..] == Attributes(props[1..]) + rest;
      DropWrittenAttributes(props[1..], rest);
    }
  }

  /** A property-skipping cursor with these events ahead of it. */
  ghost predicate Ahead(blob: Blob, c: Cursor, toks: seq<Token>, evs: seq<Event>)
  {
    && c.ptr.At? && c.skipProps && c.prev != FDT_END && Reads(blob, c.ptr.pos, toks)
    && DropAttributes(Events(toks, blob.strings)) == evs
  }

  lemma AheadOpen(blob: Blob, c: Cursor, toks: seq<Token>, evs: seq<Event>) returns (body: seq<Token>)
    requires Ahead(blob, c, toks, evs) && evs != [] && evs[0].Open? && |evs[0].name| <= MAX_NAME_LENGTH
    ensures AllEncodable(body, blob.strings) && Events(body, blob.strings) == evs[1..]
    ensures NodeDecoded(blob, evs[0].name, body, Step(blob, c))
    ensures Ahead(blob, Step(blob, c).0, DropNops(body), DropAttributes(evs[1..]))
  {
    hide Step, Reads, DropProps, DropNops, PointsInto, Encodable, DropAttributes;
    ReadsEncodable(blob, c.ptr.pos, toks);
    EventsDropProps(toks, blob.strings);
    StepDecodes(blob, c, toks);
    var t := DropProps(toks);
    TailEncodable(t, blob.strings);
    body := t[1..];
    EventsDropNops(body, blob.strings);
  }

  lemma ReadsEncodable(blob: Blob, pos: nat, toks: seq<Token>)
    requires Reads(blob, pos, toks)
    ensures AllEncodable(toks, blob.strings)
  {
  }

  lemma AheadClose(blob: Blob, c: Cursor, toks: seq<Token>, evs: seq<Event>) returns (rest: seq<Token>)
    requires Ahead(blob, c, toks, evs) && evs != [] && evs[0].Close?
    ensures Step(blob, c).1 == Yield(EndNode) && Ahead(blob, Step(blob, c).0, rest, DropAttributes(evs[1..]))
  {
    hide Step, Reads, DropProps, DropNops, PointsInto, Encodable, DropAttributes;
    ReadsEncodable(blob, c.ptr.pos, toks);
    EventsDropProps(toks, blob.strings);
    StepDecodes(blob, c, toks);
    var t := DropProps(toks);
    TailEncodable(t, blob.strings);
    rest := t[1..];
  }

  /** The rest of a node below the depth limit is passed over in silence. */
  lemma {:induction false} SkipBody(blob: Blob, c: Cursor, toks: seq<Token>, n: Node, depth: int, maxDepth: int, rest: seq<Event>)
    returns (c': Cursor, toks': seq<Token>)
    requires Ahead(blob, c, toks, FlattenAll(n.children) + ([Close] + rest)) && NamesFit(n)
    requires depth >= maxDepth >= 1
    ensures Ahead(blob, c', toks', DropAttributes(rest))
    ensures NodeNext(blob, c, depth, maxDepth) == NodeNext(blob, c', depth - 1, maxDepth)
    decreases n, 1
  {
    hide Ahead, Step, DropAttributes, Flatten;
    c', toks' := SkipAll(blob, c, toks, n.children, depth, maxDepth, rest);
    assert ([Close] + rest)[1..] == rest;
    toks' := AheadClose(blob, c', toks', [Close] + rest);
    c' := Step(blob, c').0;
  }

  lemma {:induction false} SkipAll(blob: Blob, c: Cursor, toks: seq<Token>, ns: seq<Node>, depth: int, maxDepth: int, rest: seq<Event>)
    returns (c': Cursor, toks': seq<Token>)
    requires Ahead(blob, c, toks, FlattenAll(ns) + ([Close] + rest)) && forall n | n in ns :: NamesFit(n)
    requires depth >= maxDepth >= 1
    ensures Ahead(blob, c', toks', [Close] + rest)
    ensures NodeNext(blob, c, depth, maxDepth) == NodeNext(blob, c', depth, maxDepth)
    decreases ns, 0
  {
    hide Ahead, Step, NamesFit, Flatten;
    if ns == [] {
      assert FlattenAll(ns) + ([Close] + rest) == [Close] + rest;
      c', toks' := c, toks;
    } else {
      var after := FlattenAll(ns[1..]) + ([Close] + rest);
      ChildAhead(ns, [Close] + rest);
      var body := AheadOpen(blob, c, toks, FlattenAll(ns) + ([Close] + rest));
      c', toks' := Step(blob, c).0, DropNops(body);
      c', toks' := SkipBody(blob, c', toks', ns[0], depth + 1, maxDepth, after);
      BareAfter(ns[1..], rest);
      c', toks' := SkipAll(blob, c', toks', ns[1..], depth, maxDepth, rest);
    }
  }

  lemma BareAfter(ns: seq<Node>, rest: seq<Event>)
    ensures DropAttributes(FlattenAll(ns) + ([Close] + rest)) == FlattenAll(ns) + ([Close] + rest)
  {
    if ns != [] { assert (FlattenAll(ns) + ([Close] + rest))[0] == Open(ns[0].name); }
  }

  /** The first child of a written list: its opening, its body, then the others. */
  lemma ChildAhead(ns: seq<Node>, rest: seq<Event>)
    requires ns != [] && NamesFit(ns[0]) && rest != [] && rest[0].Close?
    ensures var evs := FlattenAll(ns) + rest;
      && evs != [] && evs[0] == Open(ns[0].name) && |ns[0].name| <= MAX_NAME_LENGTH
      && evs[1..] == BodyEvents(ns[0]) + (FlattenAll(ns[1..]) + rest)
      && DropAttributes(evs[1..]) == FlattenAll(ns[0].children) + ([Close] + (FlattenAll(ns[1..]) + rest))
  {
    var n, others := ns[0], FlattenAll(ns[1..]) + rest;
    assert FlattenAll(ns) + rest == [Open(n.name)] + (BodyEvents(n) + others);
    assert BodyEvents(n) + others == Attributes(n.props) + (FlattenAll(n.children) + ([Close] + others));
    DropWrittenAttributes(n.props, FlattenAll(n.children) + ([Close] + others));
    BareAfter(n.children, others);
  }

  ghost predicate AllRepresent(blob: Blob, raws: seq<RawNode>, ns: seq<Node>)
  {
    |raws| == |ns| && forall i | 0 <= i < |ns| :: Represents(blob, raws[i], ns[i])
  }

  /** From the first child on, the depth-one iterator yields the children and stops at the parent's end. */
  lemma {:induction false} SiblingsYielded(blob: Blob, c: Cursor, toks: seq<Token>, ns: seq<Node>, rest: seq<Event>)
    requires Ahead(blob, c, toks, FlattenAll(ns) + ([Close] + rest)) && forall n | n in ns :: NamesFit(n)
    ensures Nodes(blob, c, 0, 1).Some? && AllRepresent(blob, Nodes(blob, c, 0, 1).value, ns)
    decreases |ns|
  {
    hide Ahead, Step, NamesFit, Flatten, Represents, PointsInto;
    if ns == [] {
      assert FlattenAll(ns) + ([Close] + rest) == [Close] + rest;
      assert ([Close] + rest)[1..] == rest;
      var toks' := AheadClose(blob, c, toks, [Close] + rest);
      assert NodeNext(blob, Step(blob, c).0, -1, 1).2 == NoNode;
    } else {
      var after := FlattenAll(ns[1..]) + ([Close] + rest);
      ChildAhead(ns, [Close] + rest);
      var body := AheadOpen(blob, c, toks, FlattenAll(ns) + ([Close] + rest));
      var raw, c1 := Step(blob, c).1.entry.node, Step(blob, c).0;
      assert Represents(blob, raw, ns[0]) by { RepresentsBody(blob, raw, ns[0], body, after); }
      var c2, toks2 := SkipBody(blob, c1, DropNops(body), ns[0], 1, 1, after);
      BareAfter(ns[1..], rest);
      SiblingsYielded(blob, c2, toks2, ns[1..], rest);
      SameNextSameNodes(blob, c1, 1, c2, 0, 1);
    }
  }

  lemma RepresentsBody(blob: Blob, raw: RawNode, n: Node, body: seq<Token>, rest: seq<Event>)
    requires raw.name == n.name && NamesFit(n) && AllEncodable(body, blob.strings) && PointsInto(raw, blob, body)
    requires Events(body, blob.strings) == BodyEvents(n) + rest
    ensures Represents(blob, raw, n)
  {
  }

  lemma SameNextSameNodes(blob: Blob, c1: Cursor, d1: int, c2: Cursor, d2: int, maxDepth: int)
    requires NodeNext(blob, c1, d1, maxDepth) == NodeNext(blob, c2, d2, maxDepth)
    ensures Nodes(blob, c1, d1, maxDepth) == Nodes(blob, c2, d2, maxDepth)
  {
  }

  /** `child_iter` yields exactly the direct children, in order. */
  lemma ChildIterExact(blob: Blob, raw: RawNode, n: Node)
    requires Represents(blob, raw, n)
    ensures var l := Nodes(blob, Cursor(raw.children, 0, true), 0, 1); l.Some? && AllRepresent(blob, l.value, n.children)
  {
    var body: seq<Token>, rest: seq<Event> :| AllEncodable(body, blob.strings) && PointsInto(raw, blob, body)
      && Events(body, blob.strings) == BodyEvents(n) + rest;
    var evs := FlattenAll(n.children) + ([Close] + rest);
    assert BodyEvents(n) + rest == Attributes(n.props) + evs;
    DropWrittenAttributes(n.props, evs);
    BareAfter(n.children, rest);
    EventsDropProps(body, blob.strings);
    var t := DropProps(body);
    hide Reads, Flatten, Represents, DropAttributes;
    FirstEvent(t, blob.strings);
    if n.children != [] {
      assert evs[0] == Open(n.children[0].name) by { ChildAhead(n.children, [Close] + rest); }
      AlreadyBare(t, blob.strings, evs);
      SiblingsYielded(blob, Cursor(raw.children, 0, true), t, n.children, rest);
    } else {
      assert evs[0] == Close;
    }
  }

  lemma AlreadyBare(t: seq<Token>, strings: seq<byte>, evs: seq<Event>)
    requires AllEncodable(t, strings) && Events(t, strings) == evs && evs != [] && evs[0].Open?
    ensures DropAttributes(Events(t, strings)) == evs
  {
  }

  lemma FirstEvent(t: seq<Token>, strings: seq<byte>)
    requires AllEncodable(t, strings) && (t != [] ==> !t[0].Nop? && !t[0].Property?)
    ensures t == [] <==> Events(t, strings) == []
    ensures t != [] ==> (t[0].Begin? <==> Events(t, strings)[0].Open?)
  {
    if t != [] { TailEncodable(t, strings); }
  }

  // ----- properties -----

  /** One property read, or none left. */
  ghost predicate PropDecoded(blob: Blob, t: seq<Token>, r: (Ptr, PropItem))
  {
    if t == [] || !t[0].Property? then r.1 == NoProp
    else
      && CStr(blob.strings, t[0].nameOffset).Some?
      && r.1 == RawProp(Prop(CStr(blob.strings, t[0].nameOffset).value, t[0].value))
      && r.0.At? && Reads(blob, r.0.pos, t[1..])
  }

  lemma PropNextReads(blob: Blob, pos: nat, toks: seq<Token>)
    requires Reads(blob, pos, toks)
    ensures PropDecoded(blob, DropNops(toks), PropNext(blob, At(pos)))
  {
    hide Reads, SkipNops, Word, PropAt, DropNops, PropEnd;
    NopsSkipped(blob, pos, toks);
    var t, p := DropNops(toks), SkipNops(blob.structure, pos).pos;
    FirstWordReads(blob, p, t);
    if t != [] && t[0].Property? {
      PropertyReads(blob, p, t);
    }
  }

  lemma FirstAttribute(t: seq<Token>, strings: seq<byte>)
    requires AllEncodable(t, strings) && (t != [] ==> !t[0].Nop?) && Events(t, strings) != []
    ensures t != [] && (t[0].Property? <==> Events(t, strings)[0].Attribute?)
    ensures t[0].Property? ==>
              && AllEncodable(t[1..], strings) && CStr(strings, t[0].nameOffset).Some?
              && Events(t, strings) == [Attribute(Prop(CStr(strings, t[0].nameOffset).value, t[0].value))] + Events(t[1..], strings)
  {
    TailEncodable(t, strings);
  }

  lemma {:induction false} PropsYielded(blob: Blob, pos: nat, toks: seq<Token>, props: seq<Prop>, rest: seq<Event>)
    requires Reads(blob, pos, toks) && rest != [] && !rest[0].Attribute?
    requires AllEncodable(toks, blob.strings) && Events(toks, blob.strings) == Attributes(props) + rest
    ensures Props(blob, At(pos)) == Some(props)
    decreases |props|
  {
    hide Reads, PropNext, AllEncodable, DropNops, Events;
    PropNextReads(blob, pos, toks);
    EventsDropNops(toks, blob.strings);
    var t := DropNops(toks);
    FirstAttribute(t, blob.strings);
    if props == [] {
      assert Attributes(props) + rest == rest;
    } else {
      assert (Attributes(props) + rest)[1..] == Attributes(props[1..]) + rest;
      var next := PropNext(blob, At(pos)).0;
      PropsYielded(blob, next.pos, t[1..], props[1..], rest);
      assert At(next.pos) == next;
      assert (Attributes(props) + rest)[0] == Attribute(props[0]);
      assert props == [props[0]] + props[1..];
    }
  }

  /** `prop_iter` yields exactly the properties, in order, for a node that has any; for a node without
      properties it reads through a null pointer. */
  lemma PropIterExact(blob: Blob, raw: RawNode, n: Node)
    requires Represents(blob, raw, n)
    ensures Props(blob, raw.props) == if n.props == [] then None else Some(n.props)
  {
    var body: seq<Token>, rest: seq<Event> :| AllEncodable(body, blob.strings) && PointsInto(raw, blob, body)
      && Events(body, blob.strings) == BodyEvents(n) + rest;
    var evs := FlattenAll(n.children) + ([Close] + rest);
    assert BodyEvents(n) + rest == Attributes(n.props) + evs;
    NoAttributeAhead(n.children, rest);
    EventsDropNops(body, blob.strings);
    var t := DropNops(body);
    TailEncodable(t, blob.strings);
    hide Reads, FlattenAll, Represents, Encodable, DropProps, DropNops;
    if n.props == [] {
      assert Attributes(n.props) + evs == evs;
    } else {
      assert Events(t, blob.strings)[0] == Attribute(n.props[0]);
      PropsYielded(blob, raw.props.pos, t, n.props, evs);
    }
  }

  lemma NoAttributeAhead(ns: seq<Node>, rest: seq<Event>)
    ensures !(FlattenAll(ns) + ([Close] + rest))[0].Attribute?
  {
    if ns != [] { assert (FlattenAll(ns) + ([Close] + rest))[0] == Open(ns[0].name); }
  }
}
