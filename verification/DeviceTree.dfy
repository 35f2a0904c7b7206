/** The devicetree built from a flattened blob by a stack machine over the token iterator
    (src/kernel/devicetree/mod.rs, `from_fdt`), and what it accepts. */
module DeviceTree {
  import opened Basics
  import opened StructureBlock
  import opened FdtFormat

  datatype Node = Node(name: Str, props: seq<Prop>, children: seq<Node>)

  /** A structure block without its NOPs and offsets. */
  datatype Event = Open(name: Str) | Attribute(prop: Prop) | Close

  ghost function Events(toks: seq<Token>, strings: seq<byte>): seq<Event>
    requires AllEncodable(toks, strings)
  {
    if toks == [] then []
    else
      assert Encodable(toks[0], strings) by { assert toks[0] in toks; }
      var rest := Events(toks[1..], strings);
      match toks[0]
      case Nop => rest
      case Begin(name) => [Open(name)] + rest
      case End => [Close] + rest
      case Property(off, v) => [Attribute(Prop(CStr(strings, off).value, v))] + rest
  }

  function Attributes(props: seq<Prop>): seq<Event>
  {
    if props == [] then [] else [Attribute(props[0])] + Attributes(props[1..])
  }

  /** A tree written depth first: a node's properties, then its children, then its end. */
  function Flatten(n: Node): seq<Event>
    decreases n, 1
  {
    [Open(n.name)] + (Attributes(n.props) + (FlattenAll(n.children) + [Close]))
  }

  function FlattenAll(ns: seq<Node>): seq<Event>
    decreases ns, 0
  {
    if ns == [] then [] else Flatten(ns[0]) + FlattenAll(ns[1..])
  }

  predicate NamesFit(n: Node)
  {
    |n.name| <= MAX_NAME_LENGTH && forall c | c in n.children :: NamesFit(c)
  }

  // ----- the stack machine -----

  const PHANDLE: Str := [112, 104, 97, 110, 100, 108, 101]

  /** Child indices from the root: the identity of a node. */
  type Place = seq<nat>

  /** `nodes_stack`, root first, and `phandle_map`. */
  datatype Builder = Builder(stack: seq<Node>, phandles: map<nat, Place>)

  datatype Parsed = Tree(root: Node, phandles: map<nat, Place>) | Malformed | Crash

  /** Where the node on top of the stack will sit: each open node becomes the next child of the one below. */
  function TopPlace(stack: seq<Node>): Place
  {
    if |stack| <= 1 then [] else TopPlace(stack[..|stack| - 1]) + [|stack[|stack| - 2].children|]
  }

  /** `phandle_map.insert` for a one-cell "phandle" property. */
  function Record(phandles: map<nat, Place>, prop: Prop, at: Place): map<nat, Place>
  {
    if prop.name == PHANDLE && |prop.value| == 4 then phandles[Word(prop.value, 0) := at] else phandles
  }

  function WithTop(stack: seq<Node>, top: Node): seq<Node>
    requires stack != []
  {
    stack[|stack| - 1 := top]
  }

  function Top(stack: seq<Node>): Node
    requires stack != []
  {
    stack[|stack| - 1]
  }

  function AddProp(b: Builder, prop: Prop): Builder
  {
    if b.stack == [] then b
    else
      var top := Top(b.stack);
      Builder(WithTop(b.stack, top.(props := top.props + [prop])), Record(b.phandles, prop, TopPlace(b.stack)))
  }

  function OpenNode(b: Builder, name: Str): Builder
  {
    b.(stack := b.stack + [Node(name, [], [])])
  }

  function AdoptLast(b: Builder): Builder
    requires |b.stack| >= 2
  {
    var below := b.stack[..|b.stack| - 1];
    b.(stack := WithTop(below, Top(below).(children := Top(below).children + [Top(b.stack)])))
  }

  /** `from_fdt`: what it returns from here on. */
  function Parse(blob: Blob, c: Cursor, b: Builder): Parsed
    decreases if c.ptr.At? && c.ptr.pos <= |blob.structure| then |blob.structure| - c.ptr.pos else 0
  {
    var (next, item) := Step(blob, c);
    match item
    case Error => Malformed
    case Done => Malformed
    case Fault => Crash
    case Yield(BeginNode(node)) => Parse(blob, next, OpenNode(b, node.name))
    case Yield(PropEntry(prop)) => Parse(blob, next, AddProp(b, prop))
    case Yield(EndNode) =>
      if b.stack == [] then Malformed
      else if |b.stack| == 1 then Tree(b.stack[0], b.phandles)
      else Parse(blob, next, AdoptLast(b))
  }

  const EMPTY: Builder := Builder([], map[])

  method FromFdt(blob: Blob) returns (r: Parsed)
    ensures r == Parse(blob, Cursor(At(0), 0, false), EMPTY)
  {
    var iter := new StructureBlockIter(blob, At(0), false);
    var stack, phandles := [], map[];
    while true
      invariant iter.blob == blob
      invariant Parse(blob, iter.Where(), Builder(stack, phandles)) == Parse(blob, Cursor(At(0), 0, false), EMPTY)
      decreases if iter.token.At? && iter.token.pos <= |blob.structure| then |blob.structure| - iter.token.pos else 0
    {
      var item := iter.Next();
      match item {
        case Error => return Malformed;
        case Done => return Malformed;
        case Fault => return Crash;
        case Yield(BeginNode(node)) =>
          stack := stack + [Node(node.name, [], [])];
        case Yield(PropEntry(prop)) =>
          if stack != [] {
            var top := stack[|stack| - 1];
            phandles := Record(phandles, prop, TopPlace(stack));
            stack := stack[|stack| - 1 := top.(props := top.props + [prop])];
          }
        case Yield(EndNode) =>
          if stack == [] { return Malformed; }
          var child := stack[|stack| - 1];
          stack := stack[..|stack| - 1];
          if stack == [] { return Tree(child, phandles); }
          var parent := stack[|stack| - 1];
          stack := stack[|stack| - 1 := parent.(children := parent.children + [child])];
      }
    }
  }

  // ----- the same machine on events -----

  /** A property may not follow the end of a node, and a name may not exceed 51 bytes. */
  function Build(evs: seq<Event>, b: Builder, afterClose: bool): Parsed
  {
    if evs == [] then Malformed
    else match evs[0]
      case Open(name) => if |name| > MAX_NAME_LENGTH then Malformed else Build(evs[1..], OpenNode(b, name), false)
      case Attribute(prop) => if afterClose then Malformed else Build(evs[1..], AddProp(b, prop), false)
      case Close =>
        if b.stack == [] then Malformed
        else if |b.stack| == 1 then Tree(b.stack[0], b.phandles)
        else Build(evs[1..], AdoptLast(b), true)
  }

  lemma {:induction false} EventsDropNops(toks: seq<Token>, strings: seq<byte>)
    requires AllEncodable(toks, strings)
    ensures AllEncodable(DropNops(toks), strings) && Events(DropNops(toks), strings) == Events(toks, strings)
    decreases |toks|
  {
    if toks != [] && toks[0].Nop? {
      TailEncodable(toks, strings);
      EventsDropNops(toks[1..], strings);
    }
  }

  /** On a well-written block the iterator delivers the events, in order, to the machine. */
  lemma {:induction false} ParseFollowsEvents(blob: Blob, c: Cursor, b: Builder, toks: seq<Token>)
    requires c.ptr.At? && !c.skipProps && c.prev != FDT_END && Reads(blob, c.ptr.pos, toks)
    ensures Parse(blob, c, b) == Build(Events(toks, blob.strings), b, c.prev == FDT_END_NODE)
    decreases |toks|
  {
    hide Step, Encode, Encodable, AddProp, OpenNode, AdoptLast, DropNops, PointsInto;
    var strings, next := blob.strings, Step(blob, c).0;
    StepDecodes(blob, c, toks);
    EventsDropNops(toks, strings);
    var t := DropNops(toks);
    if t != [] {
      TailEncodable(t, strings);
      match t[0]
      case Nop => assert false;
      case Begin(name) =>
        if |name| <= MAX_NAME_LENGTH {
          EventsDropNops(t[1..], strings);
          ParseFollowsEvents(blob, next, OpenNode(b, name), DropNops(t[1..]));
        }
      case End =>
        if |b.stack| >= 2 { ParseFollowsEvents(blob, next, AdoptLast(b), t[1..]); }
      case Property(off, v) =>
        if c.prev != FDT_END_NODE {
          ParseFollowsEvents(blob, next, AddProp(b, Prop(CStr(strings, off).value, v)), t[1..]);
        }
    }
  }

  // ----- every written tree is read back -----

  function RecordAll(phandles: map<nat, Place>, props: seq<Prop>, at: Place): map<nat, Place>
    decreases |props|
  {
    if props == [] then phandles else RecordAll(Record(phandles, props[0], at), props[1..], at)
  }

  /** The phandles of a tree in depth-first order; a later one replaces an earlier one. */
  function PhandlesOf(n: Node, at: Place, phandles: map<nat, Place>): map<nat, Place>
    decreases n, 1
  {
    PhandlesOfAll(n.children, at, 0, RecordAll(phandles, n.props, at))
  }

  function PhandlesOfAll(ns: seq<Node>, at: Place, k: nat, phandles: map<nat, Place>): map<nat, Place>
    decreases ns, 0
  {
    if ns == [] then phandles else PhandlesOfAll(ns[1..], at, k + 1, PhandlesOf(ns[0], at + [k], phandles))
  }

  lemma TopPlaceSame(stack: seq<Node>, top: Node)
    requires stack != []
    ensures TopPlace(WithTop(stack, top)) == TopPlace(stack)
  {
    var n := |stack| - 1;
    assert WithTop(stack, top)[..n] == stack[..n];
  }

  lemma {:induction false} BuildProps(props: seq<Prop>, b: Builder, rest: seq<Event>)
    requires b.stack != []
    ensures var top := Top(b.stack);
            Build(Attributes(props) + rest, b, false)
              == Build(rest, Builder(WithTop(b.stack, top.(props := top.props + props)),
                                        RecordAll(b.phandles, props, TopPlace(b.stack))), false)
    decreases |props|
  {
    hide TopPlace, Record;
    var top := Top(b.stack);
    if props == [] {
      assert Attributes(props) + rest == rest;
      assert top.props + props == top.props && WithTop(b.stack, top) == b.stack;
    } else {
      var b' := AddProp(b, props[0]);
      assert (Attributes(props) + rest)[1..] == Attributes(props[1..]) + rest;
      BuildProps(props[1..], b', rest);
      TopPlaceSame(b.stack, Top(b'.stack));
      assert top.props + props == (top.props + [props[0]]) + props[1..];
      var end := top.(props := top.props + props);
      assert WithTop(b'.stack, end) == WithTop(b.stack, end);
    }
  }

  /** Once a node is open, its properties and children complete it on top of the stack. */
  lemma {:induction false} BuildBody(n: Node, b: Builder, rest: seq<Event>)
    requires b.stack != [] && Top(b.stack) == Node(n.name, [], []) && NamesFit(n)
    ensures Build(Attributes(n.props) + (FlattenAll(n.children) + ([Close] + rest)), b, false)
         == Build([Close] + rest, Builder(WithTop(b.stack, n), PhandlesOf(n, TopPlace(b.stack), b.phandles)), false)
    decreases n, 1
  {
    hide TopPlace, Record, RecordAll, AddProp, AdoptLast;
    var top := Node(n.name, n.props, []);
    assert [] + n.props == n.props;
    var b1 := Builder(WithTop(b.stack, top), RecordAll(b.phandles, n.props, TopPlace(b.stack)));
    BuildProps(n.props, b, FlattenAll(n.children) + ([Close] + rest));
    TopPlaceSame(b.stack, top);
    BuildAll(n.children, b1, false, [Close] + rest);
    assert [] + n.children == n.children;
    assert WithTop(WithTop(b.stack, top), n) == WithTop(b.stack, n);
  }

  /** A written node becomes the next child of the node on top. */
  lemma {:induction false} BuildNode(n: Node, b: Builder, afterClose: bool, rest: seq<Event>)
    requires b.stack != [] && NamesFit(n)
    ensures var top := Top(b.stack);
            Build(Flatten(n) + rest, b, afterClose)
              == Build(rest, Builder(WithTop(b.stack, top.(children := top.children + [n])),
                                        PhandlesOf(n, TopPlace(b.stack) + [|top.children|], b.phandles)), true)
    decreases n, 2
  {
    hide PhandlesOf, AddProp, NamesFit;
    assert |n.name| <= MAX_NAME_LENGTH by { ThisFits(n); }
    var b1 := OpenNode(b, n.name);
    assert (Flatten(n) + rest)[1..] == Attributes(n.props) + (FlattenAll(n.children) + ([Close] + rest));
    BuildBody(n, b1, rest);
    assert b1.stack[..|b.stack|] == b.stack;
    var b2 := Builder(WithTop(b1.stack, n), PhandlesOf(n, TopPlace(b1.stack), b.phandles));
    assert b2.stack[..|b.stack|] == b.stack;
    assert ([Close] + rest)[1..] == rest;
  }

  lemma ThisFits(n: Node)
    requires NamesFit(n)
    ensures |n.name| <= MAX_NAME_LENGTH
  {
  }

  lemma {:induction false} BuildAll(ns: seq<Node>, b: Builder, afterClose: bool, rest: seq<Event>)
    requires b.stack != [] && (forall n | n in ns :: NamesFit(n)) && rest != [] && rest[0].Close?
    ensures var top := Top(b.stack);
            Build(FlattenAll(ns) + rest, b, afterClose)
              == Build(rest, Builder(WithTop(b.stack, top.(children := top.children + ns)),
                                        PhandlesOfAll(ns, TopPlace(b.stack), |top.children|, b.phandles)), false)
    decreases ns, 0
  {
    hide TopPlace, AddProp, AdoptLast, NamesFit, Flatten, PhandlesOf;
    var top := Top(b.stack);
    if ns == [] {
      assert FlattenAll(ns) + rest == rest;
      assert top.children + ns == top.children && WithTop(b.stack, top) == b.stack;
    } else {
      var top' := top.(children := top.children + [ns[0]]);
      var b' := Builder(WithTop(b.stack, top'), PhandlesOf(ns[0], TopPlace(b.stack) + [|top.children|], b.phandles));
      assert FlattenAll(ns) + rest == Flatten(ns[0]) + (FlattenAll(ns[1..]) + rest);
      BuildNode(ns[0], b, afterClose, FlattenAll(ns[1..]) + rest);
      BuildAll(ns[1..], b', true, rest);
      TopPlaceSame(b.stack, top');
      assert top'.children + ns[1..] == top.children + ns;
      var end := top.(children := top.children + ns);
      assert WithTop(b'.stack, end) == WithTop(b.stack, end);
    }
  }

  /** Stray properties before the root are dropped. */
  lemma {:induction false} BuildLead(lead: seq<Prop>, rest: seq<Event>)
    ensures Build(Attributes(lead) + rest, EMPTY, false) == Build(rest, EMPTY, false)
    decreases |lead|
  {
    if lead == [] {
      assert Attributes(lead) + rest == rest;
    } else {
      assert (Attributes(lead) + rest)[1..] == Attributes(lead[1..]) + rest;
      BuildLead(lead[1..], rest);
    }
  }

  lemma BuildRoot(t: Node, rest: seq<Event>)
    requires NamesFit(t)
    ensures Build(Flatten(t) + rest, EMPTY, false) == Tree(t, PhandlesOf(t, [], map[]))
  {
    hide PhandlesOf, AddProp, AdoptLast;
    var b := OpenNode(EMPTY, t.name);
    assert b.stack == [Node(t.name, [], [])];
    assert (Flatten(t) + rest)[1..] == Attributes(t.props) + (FlattenAll(t.children) + ([Close] + rest));
    BuildBody(t, b, rest);
    assert WithTop(b.stack, t) == [t];
  }

  // ----- nothing else is accepted -----

  /** The events that led to a stack. */
  function Consumed(stack: seq<Node>): seq<Event>
  {
    if stack == [] then []
    else
      Consumed(stack[..|stack| - 1])
      + ([Open(Top(stack).name)] + (Attributes(Top(stack).props) + FlattenAll(Top(stack).children)))
  }

  lemma {:induction false} AttributesSnoc(props: seq<Prop>, p: Prop)
    ensures Attributes(props + [p]) == Attributes(props) + [Attribute(p)]
  {
    if props == [] {
      assert props + [p] == [p] && [p][1..] == [];
    } else {
      assert (props + [p])[1..] == props[1..] + [p];
      AttributesSnoc(props[1..], p);
    }
  }

  lemma {:induction false} FlattenAllSnoc(ns: seq<Node>, n: Node)
    ensures FlattenAll(ns + [n]) == FlattenAll(ns) + Flatten(n)
    decreases |ns|
  {
    hide Flatten;
    if ns == [] {
      assert ns + [n] == [n] && [n][1..] == [];
    } else {
      assert (ns + [n])[1..] == ns[1..] + [n];
      FlattenAllSnoc(ns[1..], n);
    }
  }

  lemma ConsumedWithTop(stack: seq<Node>, top: Node)
    requires stack != []
    ensures Consumed(WithTop(stack, top))
         == Consumed(stack[..|stack| - 1]) + ([Open(top.name)] + (Attributes(top.props) + FlattenAll(top.children)))
  {
    assert WithTop(stack, top)[..|stack| - 1] == stack[..|stack| - 1];
  }

  lemma ConsumedOpen(b: Builder, name: Str)
    ensures Consumed(OpenNode(b, name).stack) == Consumed(b.stack) + [Open(name)]
  {
    var stack := OpenNode(b, name).stack;
    assert stack[..|b.stack|] == b.stack;
  }

  lemma ConsumedAddProp(b: Builder, prop: Prop)
    requires b.stack != [] && Top(b.stack).children == []
    ensures Consumed(AddProp(b, prop).stack) == Consumed(b.stack) + [Attribute(prop)]
  {
    var top := Top(b.stack);
    ConsumedWithTop(b.stack, top.(props := top.props + [prop]));
    AttributesSnoc(top.props, prop);
  }

  lemma ConsumedAdopt(b: Builder)
    requires |b.stack| >= 2
    ensures Consumed(AdoptLast(b).stack) == Consumed(b.stack) + [Close]
  {
    var n := |b.stack|;
    var below, child := b.stack[..n - 1], Top(b.stack);
    var parent := Top(below);
    ConsumedWithTop(below, parent.(children := parent.children + [child]));
    FlattenAllSnoc(parent.children, child);
    hide FlattenAll, Attributes, Consumed;
    assert Consumed(b.stack) == Consumed(below) + ([Open(child.name)] + (Attributes(child.props) + FlattenAll(child.children))) by {
      ConsumedWithTop(b.stack, child);
      assert WithTop(b.stack, child) == b.stack;
    }
    ConsumedWithTop(below, parent);
    assert WithTop(below, parent) == below;
    Regroup(Consumed(below[..n - 2]), [Open(parent.name)], Attributes(parent.props), FlattenAll(parent.children),
            [Open(child.name)], Attributes(child.props), FlattenAll(child.children), [Close]);
  }

  lemma Regroup<T>(p: seq<T>, o: seq<T>, a: seq<T>, f: seq<T>, o': seq<T>, a': seq<T>, f': seq<T>, z: seq<T>)
    ensures p + (o + (a + (f + (o' + (a' + (f' + z)))))) == ((p + (o + (a + f))) + (o' + (a' + f'))) + z
  {
    var body := o' + (a' + f');
    assert o' + (a' + (f' + z)) == body + z;
    assert o + (a + (f + (body + z))) == (o + (a + f)) + (body + z);
    assert p + ((o + (a + f)) + (body + z)) == ((p + (o + (a + f))) + body) + z;
  }

  ghost predicate NamesFitSoFar(stack: seq<Node>)
  {
    forall n | n in stack :: NamesFit(n)
  }

  /** One event the machine goes on after. */
  function After(b: Builder, e: Event): Builder
    requires e.Close? ==> |b.stack| >= 2
  {
    match e
    case Open(name) => OpenNode(b, name)
    case Attribute(prop) => AddProp(b, prop)
    case Close => AdoptLast(b)
  }

  lemma StepSound(e: Event, b: Builder, afterClose: bool)
    requires b.stack != [] && NamesFitSoFar(b.stack) && (Top(b.stack).children != [] ==> afterClose)
    requires (e.Open? ==> |e.name| <= MAX_NAME_LENGTH) && (e.Attribute? ==> !afterClose) && (e.Close? ==> |b.stack| >= 2)
    ensures After(b, e).stack != [] && NamesFitSoFar(After(b, e).stack)
    ensures Consumed(After(b, e).stack) == Consumed(b.stack) + [e]
    ensures Top(After(b, e).stack).children != [] ==> e.Close?
  {
    hide Consumed, Record, NamesFit, TopPlace;
    match e
    case Open(name) =>
      ConsumedOpen(b, name);
      LeafFits(name);
    case Attribute(prop) =>
      ConsumedAddProp(b, prop);
      AddPropFits(b, prop);
    case Close =>
      ConsumedAdopt(b);
      AdoptFits(b);
  }

  lemma OnlyNode(stack: seq<Node>)
    requires |stack| == 1 && NamesFitSoFar(stack)
    ensures NamesFit(stack[0])
  {
  }

  /** Whatever the machine returns from an open stack is the tree whose writing the events complete. */
  lemma {:induction false} BuildSound(evs: seq<Event>, b: Builder, afterClose: bool) returns (rest: seq<Event>)
    requires b.stack != [] && NamesFitSoFar(b.stack) && Build(evs, b, afterClose).Tree?
    requires Top(b.stack).children != [] ==> afterClose
    ensures Consumed(b.stack) + evs == Flatten(Build(evs, b, afterClose).root) + rest
    ensures NamesFit(Build(evs, b, afterClose).root)
    decreases |evs|
  {
    hide Consumed, Flatten, NamesFit, NamesFitSoFar, OpenNode, AddProp, AdoptLast;
    assert evs == [evs[0]] + evs[1..];
    if evs[0].Close? && |b.stack| == 1 {
      ConsumedRoot(b.stack);
      OnlyNode(b.stack);
      rest := evs[1..];
    } else {
      StepSound(evs[0], b, afterClose);
      rest := BuildSound(evs[1..], After(b, evs[0]), evs[0].Close?);
    }
  }

  lemma ConsumedRoot(stack: seq<Node>)
    requires |stack| == 1
    ensures Consumed(stack) + [Close] == Flatten(stack[0])
  {
    assert stack[..0] == [];
  }

  lemma AddPropFits(b: Builder, prop: Prop)
    requires b.stack != [] && NamesFitSoFar(b.stack)
    ensures NamesFitSoFar(AddProp(b, prop).stack)
  {
    assert NamesFit(Top(b.stack));
  }

  lemma AdoptFits(b: Builder)
    requires |b.stack| >= 2 && NamesFitSoFar(b.stack)
    ensures NamesFitSoFar(AdoptLast(b).stack)
  {
    var below := b.stack[..|b.stack| - 1];
    assert NamesFit(Top(b.stack)) && Top(below) in b.stack;
  }

  lemma EmptyKeepsNoProps(prop: Prop)
    ensures AddProp(EMPTY, prop) == EMPTY
  {
  }

  lemma LeafFits(name: Str)
    requires |name| <= MAX_NAME_LENGTH
    ensures NamesFit(Node(name, [], []))
  {
  }

  lemma {:induction false} BuildSoundFromEmpty(evs: seq<Event>) returns (lead: seq<Prop>, rest: seq<Event>)
    requires Build(evs, EMPTY, false).Tree?
    ensures evs == Attributes(lead) + (Flatten(Build(evs, EMPTY, false).root) + rest)
    ensures NamesFit(Build(evs, EMPTY, false).root)
    decreases |evs|
  {
    hide Flatten, AddProp, NamesFit;
    assert evs == [evs[0]] + evs[1..];
    match evs[0]
    case Attribute(prop) =>
      assert AddProp(EMPTY, prop) == EMPTY by { EmptyKeepsNoProps(prop); }
      var lead';
      lead', rest := BuildSoundFromEmpty(evs[1..]);
      lead := [prop] + lead';
      assert lead[1..] == lead';
    case Open(name) =>
      lead := [];
      var b := OpenNode(EMPTY, name);
      ConsumedOpen(EMPTY, name);
      assert NamesFit(Node(name, [], [])) by { LeafFits(name); }
      rest := BuildSound(evs[1..], b, false);
      assert Consumed(b.stack) + evs[1..] == evs;
    case Close => assert false;
  }

  // ----- main results -----

  /** The events write the tree: its own, whatever properties stand before it, and whatever follows. */
  ghost predicate Written(evs: seq<Event>, t: Node)
  {
    exists lead: seq<Prop>, rest: seq<Event> :: evs == Attributes(lead) + (Flatten(t) + rest)
  }

  /** `from_fdt` returns a tree, with its phandles, exactly when the block writes that tree and every name has at most 51
      bytes, wherever NOPs stand and whatever follows the root. */
  lemma FromFdtAccepts(blob: Blob, toks: seq<Token>, t: Node)
    requires Reads(blob, 0, toks)
    ensures var r := Parse(blob, Cursor(At(0), 0, false), EMPTY);
            && (r == Tree(t, PhandlesOf(t, [], map[])) <==> NamesFit(t) && Written(Events(toks, blob.strings), t))
            && (r.Tree? ==> r.phandles == PhandlesOf(r.root, [], map[]))
            && r != Crash
  {
    hide Flatten, NamesFit, PhandlesOf;
    TreeHasItsPhandles(blob, toks);
    var evs := Events(toks, blob.strings);
    ParseFollowsEvents(blob, Cursor(At(0), 0, false), EMPTY, toks);
    if Build(evs, EMPTY, false) == Tree(t, PhandlesOf(t, [], map[])) {
      var lead, rest := BuildSoundFromEmpty(evs);
    }
    if NamesFit(t) && Written(evs, t) {
      var lead: seq<Prop>, rest: seq<Event> :| evs == Attributes(lead) + (Flatten(t) + rest);
      BuildLead(lead, Flatten(t) + rest);
      BuildRoot(t, rest);
    }
    NeverCrash(evs, EMPTY, false);
  }

  lemma TreeHasItsPhandles(blob: Blob, toks: seq<Token>)
    requires Reads(blob, 0, toks)
    ensures var r := Parse(blob, Cursor(At(0), 0, false), EMPTY); r.Tree? ==> r.phandles == PhandlesOf(r.root, [], map[])
  {
    hide Flatten, NamesFit, PhandlesOf;
    var evs := Events(toks, blob.strings);
    ParseFollowsEvents(blob, Cursor(At(0), 0, false), EMPTY, toks);
    if Build(evs, EMPTY, false).Tree? {
      var t := Build(evs, EMPTY, false).root;
      var lead, rest := BuildSoundFromEmpty(evs);
      BuildLead(lead, Flatten(t) + rest);
      BuildRoot(t, rest);
    }
  }

  lemma {:induction false} NeverCrash(evs: seq<Event>, b: Builder, afterClose: bool)
    ensures Build(evs, b, afterClose) != Crash
    decreases |evs|
  {
    if evs != [] {
      match evs[0]
      case Open(name) => NeverCrash(evs[1..], OpenNode(b, name), false);
      case Attribute(prop) => NeverCrash(evs[1..], AddProp(b, prop), false);
      case Close => if |b.stack| >= 2 { NeverCrash(evs[1..], AdoptLast(b), true); }
    }
  }

  /** The round trip: names, property order, raw values, child order and phandles come back. */
  lemma RoundTrip(blob: Blob, toks: seq<Token>, t: Node)
    requires Reads(blob, 0, toks) && NamesFit(t) && Events(toks, blob.strings) == Flatten(t)
    ensures Parse(blob, Cursor(At(0), 0, false), EMPTY) == Tree(t, PhandlesOf(t, [], map[]))
  {
    hide Reads, Flatten, PhandlesOf;
    ParseFollowsEvents(blob, Cursor(At(0), 0, false), EMPTY, toks);
    BuildRoot(t, []);
    assert Flatten(t) + [] == Flatten(t);
  }

  // ----- phandles -----

  function NodeAt(t: Node, at: Place): Option<Node>
  {
    if at == [] then Some(t)
    else if at[0] < |t.children| then NodeAt(t.children[at[0]], at[1..])
    else None
  }

  predicate HasPhandle(n: Node, h: nat)
  {
    exists p | p in n.props :: p.name == PHANDLE && |p.value| == 4 && Word(p.value, 0) == h
  }

  /** Every entry leads to a node that carries the phandle. */
  ghost predicate LeadsTo(root: Node, phandles: map<nat, Place>)
  {
    forall h | h in phandles :: NodeAt(root, phandles[h]).Some? && HasPhandle(NodeAt(root, phandles[h]).value, h)
  }

  lemma {:induction false} NodeAtChild(root: Node, at: Place, k: nat)
    requires NodeAt(root, at).Some? && k < |NodeAt(root, at).value.children|
    ensures NodeAt(root, at + [k]) == Some(NodeAt(root, at).value.children[k])
    decreases |at|
  {
    if at == [] {
      assert [] + [k] == [k] && [k][1..] == [];
    } else {
      assert (at + [k])[1..] == at[1..] + [k];
      NodeAtChild(root.children[at[0]], at[1..], k);
    }
  }

  lemma {:induction false} RecordAllLeads(root: Node, n: Node, props: seq<Prop>, at: Place, phandles: map<nat, Place>)
    requires LeadsTo(root, phandles) && NodeAt(root, at) == Some(n) && forall p | p in props :: p in n.props
    ensures LeadsTo(root, RecordAll(phandles, props, at))
    ensures forall h :: h in RecordAll(phandles, props, at) <==>
                        h in phandles || exists p | p in props :: p.name == PHANDLE && |p.value| == 4 && Word(p.value, 0) == h
    decreases |props|
  {
    if props != [] {
      hide NodeAt, Word;
      assert props[0] in props;
      assert props == [props[0]] + props[1..];
      RecordAllLeads(root, n, props[1..], at, Record(phandles, props[0], at));
    }
  }

  lemma {:induction false} PhandlesLead(root: Node, n: Node, at: Place, phandles: map<nat, Place>)
    requires LeadsTo(root, phandles) && NodeAt(root, at) == Some(n)
    ensures LeadsTo(root, PhandlesOf(n, at, phandles))
    ensures forall h | h in phandles || HasPhandle(n, h) :: h in PhandlesOf(n, at, phandles)
    decreases n, 1
  {
    hide NodeAt, HasPhandle;
    RecordAllLeads(root, n, n.props, at, phandles);
    PhandlesAllLead(root, n, 0, at, RecordAll(phandles, n.props, at));
    forall h | HasPhandle(n, h)
      ensures h in RecordAll(phandles, n.props, at)
    {
      PhandleWitness(n, h);
    }
  }

  lemma PhandleWitness(n: Node, h: nat)
    requires HasPhandle(n, h)
    ensures exists p | p in n.props :: p.name == PHANDLE && |p.value| == 4 && Word(p.value, 0) == h
  {
  }

  lemma {:induction false} PhandlesAllLead(root: Node, n: Node, k: nat, at: Place, phandles: map<nat, Place>)
    requires LeadsTo(root, phandles) && NodeAt(root, at) == Some(n) && k <= |n.children|
    ensures LeadsTo(root, PhandlesOfAll(n.children[k..], at, k, phandles))
    ensures forall h | h in phandles :: h in PhandlesOfAll(n.children[k..], at, k, phandles)
    decreases n, 0, |n.children| - k
  {
    hide NodeAt, HasPhandle, LeadsTo, PhandlesOf;
    if k < |n.children| {
      NodeAtChild(root, at, k);
      PhandlesLead(root, n.children[k], at + [k], phandles);
      PhandlesAllLead(root, n, k + 1, at, PhandlesOf(n.children[k], at + [k], phandles));
      assert n.children[k..][1..] == n.children[k + 1..];
    }
  }

  lemma {:induction false} PhandlesComplete(root: Node, n: Node, at: Place, phandles: map<nat, Place>, p: Place, h: nat)
    requires LeadsTo(root, phandles) && NodeAt(root, at) == Some(n)
    requires NodeAt(n, p).Some? && HasPhandle(NodeAt(n, p).value, h)
    ensures h in PhandlesOf(n, at, phandles)
    decreases n, 1
  {
    if p == [] {
      PhandlesLead(root, n, at, phandles);
    } else {
      RecordAllLeads(root, n, n.props, at, phandles);
      PhandlesAllComplete(root, n, 0, at, RecordAll(phandles, n.props, at), p, h);
    }
  }

  lemma {:induction false} PhandlesAllComplete(root: Node, n: Node, k: nat, at: Place, phandles: map<nat, Place>, p: Place, h: nat)
    requires LeadsTo(root, phandles) && NodeAt(root, at) == Some(n) && p != [] && k <= p[0] < |n.children|
    requires NodeAt(n, p).Some? && HasPhandle(NodeAt(n, p).value, h)
    ensures h in PhandlesOfAll(n.children[k..], at, k, phandles)
    decreases n, 0, |n.children| - k
  {
    hide HasPhandle, LeadsTo, PhandlesOf;
    var phandles' := PhandlesOf(n.children[k], at + [k], phandles);
    assert n.children[k..][1..] == n.children[k + 1..];
    NodeAtChild(root, at, k);
    PhandlesLead(root, n.children[k], at + [k], phandles);
    if k == p[0] {
      PhandlesComplete(root, n.children[k], at + [k], phandles, p[1..], h);
      PhandlesAllLead(root, n, k + 1, at, phandles');
    } else {
      PhandlesAllComplete(root, n, k + 1, at, phandles', p, h);
    }
  }

  /** The phandle map has an entry for exactly the phandles that occur in the tree, and it leads to a node carrying it. */
  lemma PhandleMapExact(t: Node, h: nat)
    ensures h in PhandlesOf(t, [], map[]) <==> exists p :: NodeAt(t, p).Some? && HasPhandle(NodeAt(t, p).value, h)
    ensures LeadsTo(t, PhandlesOf(t, [], map[]))
  {
    hide PhandlesOf, HasPhandle;
    PhandlesLead(t, t, [], map[]);
    var m := PhandlesOf(t, [], map[]);
    if h in m {
      assert NodeAt(t, m[h]).Some? && HasPhandle(NodeAt(t, m[h]).value, h);
    }
    if p :| NodeAt(t, p).Some? && HasPhandle(NodeAt(t, p).value, h) {
      PhandlesComplete(t, t, [], map[], p, h);
    }
  }

  /** So the map that comes with any accepted tree is exact, whatever stands before or after the tree. */
  lemma AcceptedPhandlesExact(blob: Blob, toks: seq<Token>, h: nat)
    requires Reads(blob, 0, toks)
    ensures var r := Parse(blob, Cursor(At(0), 0, false), EMPTY);
      r.Tree? ==> LeadsTo(r.root, r.phandles)
                  && (h in r.phandles <==> exists p :: NodeAt(r.root, p).Some? && HasPhandle(NodeAt(r.root, p).value, h))
  {
    TreeHasItsPhandles(blob, toks);
    hide Reads, PhandlesOf, LeadsTo, HasPhandle, NodeAt;
    var r := Parse(blob, Cursor(At(0), 0, false), EMPTY);
    if r.Tree? { PhandleMapExact(r.root, h); }
  }
}
