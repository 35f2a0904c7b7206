/** Paths in the devicetree: the two resolvers, one over the blob and one over the tree
    (src/kernel/devicetree/fdt/mod.rs `get_node_by_path`, src/kernel/devicetree/mod.rs `node_by_path`),
    the path a node prints (src/kernel/devicetree/node.rs `path`) and the walk over all nodes (`iter`). */
module DevicePaths {
  import opened Basics
  import opened StructureBlock
  import opened FdtFormat
  import opened DeviceTree
  import opened FdtLookup

  const SLASH: byte := 47
  const AT_SIGN: byte := 64
  const NO_LIMIT: int := 0x7FFF_FFFF_FFFF_FFFF

  function NonEmpty(word: Str): seq<Str>
  {
    if word == [] then [] else [word]
  }

  /** `path.split('/').filter(nonempty)`, with `word` the segment read so far. */
  function Split(path: Str, word: Str): seq<Str>
    decreases |path|
  {
    if path == [] then NonEmpty(word)
    else if path[0] == SLASH then NonEmpty(word) + Split(path[1..], [])
    else Split(path[1..], word + [path[0]])
  }

  function Segments(path: Str): seq<Str>
  {
    Split(path, [])
  }

  // ----- resolving in the tree -----

  /** First child with the name. */
  function ChildNamed(ns: seq<Node>, name: Str): (r: Option<nat>)
    ensures r.Some? ==> r.value < |ns|
  {
    if ns == [] then None
    else if ns[0].name == name then Some(0)
    else match ChildNamed(ns[1..], name)
      case None => None
      case Some(i) => Some(i + 1)
  }

  function Resolve(n: Node, segments: seq<Str>): (r: Option<Place>)
    decreases |segments|
  {
    if segments == [] then Some([])
    else match ChildNamed(n.children, segments[0])
      case None => None
      case Some(i) =>
        match Resolve(n.children[i], segments[1..])
        case None => None
        case Some(p) => Some([i] + p)
  }

  method FindChildNamed(ns: seq<Node>, name: Str) returns (r: Option<nat>)
    ensures r == ChildNamed(ns, name)
  {
    var i := 0;
    while i < |ns|
      invariant i <= |ns|
      invariant ChildNamed(ns, name) == match ChildNamed(ns[i..], name)
                                        case None => None
                                        case Some(j) => Some(i + j)
    {
      if ns[i].name == name { return Some(i); }
      assert ns[i..][1..] == ns[i + 1..];
      i := i + 1;
    }
    return None;
  }

  /** `node_by_path`, for a path and not an alias. */
  method NodeByPath(root: Node, path: Str) returns (r: Option<Node>)
    requires SLASH in path
    ensures r.None? <==> Resolve(root, Segments(path)).None?
    ensures r.Some? ==> r == NodeAt(root, Resolve(root, Segments(path)).value)
  {
    var segments := Segments(path);
    var current := root;
    ghost var at: Place := [];
    assert segments[0..] == segments;
    assert forall p: Place :: at + p == p;
    for i := 0 to |segments|
      invariant NodeAt(root, at) == Some(current)
      invariant Resolve(root, segments) == match Resolve(current, segments[i..])
                                           case None => None
                                           case Some(p) => Some(at + p)
    {
      var next := FindChildNamed(current.children, segments[i]);
      assert segments[i..][1..] == segments[i + 1..];
      if next.None? { return None; }
      NodeAtChild(root, at, next.value);
      Regroup(at, next.value, Resolve(current.children[next.value], segments[i + 1..]));
      at := at + [next.value];
      current := current.children[next.value];
    }
    assert at + [] == at;
    return Some(current);
  }

  lemma Regroup(at: Place, i: nat, r: Option<Place>)
    ensures r.Some? ==> at + ([i] + r.value) == (at + [i]) + r.value
  {
  }

  lemma {:induction false} ResolvedExists(n: Node, segments: seq<Str>)
    requires Resolve(n, segments).Some?
    ensures NodeAt(n, Resolve(n, segments).value).Some?
    decreases |segments|
  {
    if segments != [] {
      var i := ChildNamed(n.children, segments[0]).value;
      var p := Resolve(n.children[i], segments[1..]).value;
      assert ([i] + p)[1..] == p;
      ResolvedExists(n.children[i], segments[1..]);
    }
  }

  // ----- resolving in the blob -----

  datatype Query = IsRoot | Named(name: Str)

  /** `node_name`: the part before '@'. */
  function NodeName(name: Str): Str
  {
    if name == [] || name[0] == AT_SIGN then [] else [name[0]] + NodeName(name[1..])
  }

  /** All of a name without '@', or what stands before the first. */
  lemma {:induction false} NodeNameEnds(name: Str, unit: Str)
    requires AT_SIGN !in name
    ensures NodeName(name) == name && NodeName(name + [0x40] + unit) == name
    decreases |name|
  {
    if name != [] {
      assert name[0] in name && name == [name[0]] + name[1..];
      assert (name + [0x40] + unit)[1..] == name[1..] + [0x40] + unit;
      NodeNameEnds(name[1..], unit);
    }
  }

  predicate Matches(q: Query, raw: RawNode)
  {
    match q
    case IsRoot => NodeName(raw.name) == []
    case Named(name) => raw.name == name
  }

  datatype Lookup = Found(raw: RawNode) | Missing | LookupFault

  /** `iter.find(matches)`. */
  function Find(blob: Blob, c: Cursor, depth: int, maxDepth: int, q: Query): Lookup
    decreases if c.ptr.At? && c.ptr.pos <= |blob.structure| then |blob.structure| - c.ptr.pos else 0
  {
    var (next, depth', item) := NodeNext(blob, c, depth, maxDepth);
    match item
    case NoNode => Missing
    case NodeFault => LookupFault
    case Raw(node) => if Matches(q, node) then Found(node) else Find(blob, next, depth', maxDepth, q)
  }

  method FindNode(blob: Blob, token: Ptr, maxDepth: int, q: Query) returns (r: Lookup)
    requires maxDepth > 0
    ensures r == Find(blob, Cursor(token, 0, true), 0, maxDepth, q)
  {
    var iter := new NodeIter(blob, token, maxDepth);
    while true
      invariant iter.iter.blob == blob && iter.maxDepth == maxDepth && fresh(iter) && fresh(iter.iter)
      invariant Find(blob, iter.iter.Where(), iter.depth, maxDepth, q) == Find(blob, Cursor(token, 0, true), 0, maxDepth, q)
      decreases var p := iter.iter.token; if p.At? && p.pos <= |blob.structure| then |blob.structure| - p.pos else 0
    {
      var item := iter.Next();
      match item {
        case NoNode => return Missing;
        case NodeFault => return LookupFault;
        case Raw(node) => if Matches(q, node) { return Found(node); }
      }
    }
  }

  function ChildOf(blob: Blob, raw: RawNode, name: Str): Lookup
  {
    Find(blob, Cursor(raw.children, 0, true), 0, 1, Named(name))
  }

  function ResolveRaw(blob: Blob, raw: RawNode, segments: seq<Str>): Lookup
    decreases |segments|
  {
    if segments == [] then Found(raw)
    else match ChildOf(blob, raw, segments[0])
      case Found(child) => ResolveRaw(blob, child, segments[1..])
      case other => other
  }

  function ResolveFlat(blob: Blob, segments: seq<Str>): Lookup
  {
    match Find(blob, Cursor(At(0), 0, true), 0, NO_LIMIT, IsRoot)
    case Found(root) => ResolveRaw(blob, root, segments)
    case other => other
  }

  /** `get_node_by_path`, for a path and not an alias. */
  method GetNodeByPath(blob: Blob, path: Str) returns (r: Lookup)
    requires SLASH in path
    ensures r == ResolveFlat(blob, Segments(path))
  {
    var segments := Segments(path);
    r := FindNode(blob, At(0), NO_LIMIT, IsRoot);
    if !r.Found? { return; }
    assert segments[0..] == segments;
    for i := 0 to |segments|
      invariant r.Found? && ResolveFlat(blob, segments) == ResolveRaw(blob, r.raw, segments[i..])
    {
      assert segments[i..][1..] == segments[i + 1..];
      r := FindNode(blob, r.raw.children, 1, Named(segments[i]));
      if !r.Found? { return; }
    }
  }

  // ----- the two agree -----

  function FirstNamed(raws: seq<RawNode>, q: Query): Lookup
  {
    if raws == [] then Missing
    else if Matches(q, raws[0]) then Found(raws[0])
    else FirstNamed(raws[1..], q)
  }

  lemma {:induction false} FindIsFirst(blob: Blob, c: Cursor, depth: int, maxDepth: int, q: Query)
    requires Nodes(blob, c, depth, maxDepth).Some?
    ensures Find(blob, c, depth, maxDepth, q) == FirstNamed(Nodes(blob, c, depth, maxDepth).value, q)
    decreases if c.ptr.At? && c.ptr.pos <= |blob.structure| then |blob.structure| - c.ptr.pos else 0
  {
    var (next, depth', item) := NodeNext(blob, c, depth, maxDepth);
    if item.Raw? {
      FindIsFirst(blob, next, depth', maxDepth, q);
      var rest := Nodes(blob, next, depth', maxDepth).value;
      assert ([item.node] + rest)[1..] == rest;
    }
  }

  lemma {:induction false} FirstAgrees(blob: Blob, raws: seq<RawNode>, ns: seq<Node>, name: Str)
    requires AllRepresent(blob, raws, ns)
    ensures ChildNamed(ns, name).None? ==> FirstNamed(raws, Named(name)) == Missing
    ensures ChildNamed(ns, name).Some? ==> FirstNamed(raws, Named(name)) == Found(raws[ChildNamed(ns, name).value])
    decreases |ns|
  {
    if ns != [] {
      assert Represents(blob, raws[0], ns[0]);
      FirstAgrees(blob, raws[1..], ns[1..], name);
    }
  }

  lemma ChildAgrees(blob: Blob, raw: RawNode, n: Node, name: Str)
    requires Represents(blob, raw, n)
    ensures ChildNamed(n.children, name).None? ==> ChildOf(blob, raw, name) == Missing
    ensures ChildNamed(n.children, name).Some? ==>
              && ChildOf(blob, raw, name).Found?
              && Represents(blob, ChildOf(blob, raw, name).raw, n.children[ChildNamed(n.children, name).value])
  {
    hide Represents, Find, Nodes;
    ChildIterExact(blob, raw, n);
    var c := Cursor(raw.children, 0, true);
    FindIsFirst(blob, c, 0, 1, Named(name));
    FirstAgrees(blob, Nodes(blob, c, 0, 1).value, n.children, name);
  }

  /** What the flat resolver must return for what the tree resolver returns. */
  ghost predicate Agree(blob: Blob, n: Node, flat: Lookup, place: Option<Place>)
  {
    match place
    case None => flat == Missing
    case Some(p) => flat.Found? && NodeAt(n, p).Some? && Represents(blob, flat.raw, NodeAt(n, p).value)
  }

  lemma {:induction false} ResolversAgree(blob: Blob, raw: RawNode, n: Node, segments: seq<Str>)
    requires Represents(blob, raw, n)
    ensures Agree(blob, n, ResolveRaw(blob, raw, segments), Resolve(n, segments))
    decreases |segments|
  {
    hide Represents, ChildOf;
    if segments != [] {
      ChildAgrees(blob, raw, n, segments[0]);
      var i := ChildNamed(n.children, segments[0]);
      if i.Some? {
        ResolversAgree(blob, ChildOf(blob, raw, segments[0]).raw, n.children[i.value], segments[1..]);
        var p := Resolve(n.children[i.value], segments[1..]);
        if p.Some? { assert ([i.value] + p.value)[1..] == p.value; }
      }
    }
  }

  /** The first node of a written tree is its root. */
  lemma RootFound(blob: Blob, toks: seq<Token>, t: Node)
    requires Reads(blob, 0, toks) && NamesFit(t) && t.name == [] && Written(Events(toks, blob.strings), t)
    ensures var r := Find(blob, Cursor(At(0), 0, true), 0, NO_LIMIT, IsRoot); r.Found? && Represents(blob, r.raw, t)
  {
    var evs, c := Events(toks, blob.strings), Cursor(At(0), 0, true);
    var lead: seq<Prop>, rest: seq<Event> :| evs == Attributes(lead) + (Flatten(t) + rest);
    DropWrittenAttributes(lead, Flatten(t) + rest);
    hide Represents, Find, Flatten, BodyEvents, NamesFit, DropAttributes, Attributes, Encode;
    FlattenOpens(t, rest);
    OpenFound(blob, c, toks, t, rest);
  }

  lemma FlattenOpens(t: Node, rest: seq<Event>)
    ensures Flatten(t) + rest == [Open(t.name)] + (BodyEvents(t) + rest)
    ensures DropAttributes(Flatten(t) + rest) == Flatten(t) + rest
  {
  }

  lemma OpenFound(blob: Blob, c: Cursor, toks: seq<Token>, t: Node, rest: seq<Event>)
    requires Ahead(blob, c, toks, [Open([])] + (BodyEvents(t) + rest)) && NamesFit(t) && t.name == []
    ensures var r := Find(blob, c, 0, NO_LIMIT, IsRoot); r.Found? && Represents(blob, r.raw, t)
  {
    hide Ahead, Represents, Reads, Step, PointsInto, NamesFit, BodyEvents, DropAttributes;
    var evs := [Open([])] + (BodyEvents(t) + rest);
    var body := AheadOpen(blob, c, toks, evs);
    assert evs[1..] == BodyEvents(t) + rest;
    var raw := Step(blob, c).1.entry.node;
    RepresentsBody(blob, raw, t, body, rest);
    assert NodeNext(blob, c, 0, NO_LIMIT).2 == Raw(raw);
    assert Matches(IsRoot, raw);
  }

  /** On a well-written blob, whose tree `from_fdt` returns and whose root is nameless, both resolvers succeed on the
      same paths and reach the same node. */
  lemma FlatAndTreeAgree(blob: Blob, toks: seq<Token>, path: Str)
    requires Reads(blob, 0, toks)
    ensures var r := Parse(blob, Cursor(At(0), 0, false), EMPTY);
      r.Tree? && r.root.name == [] ==>
        Agree(blob, r.root, ResolveFlat(blob, Segments(path)), Resolve(r.root, Segments(path)))
  {
    hide Represents, Reads, Agree, Parse, Written, Events, NamesFit, Split;
    var r := Parse(blob, Cursor(At(0), 0, false), EMPTY);
    if r.Tree? && r.root.name == [] {
      FromFdtAccepts(blob, toks, r.root);
      RootFound(blob, toks, r.root);
      var root := Find(blob, Cursor(At(0), 0, true), 0, NO_LIMIT, IsRoot).raw;
      ResolversAgree(blob, root, r.root, Segments(path));
    }
  }

  // ----- the path a node prints -----

  function Join(names: seq<Str>): Str
  {
    if names == [] then [] else [SLASH] + names[0] + Join(names[1..])
  }

  function NamesOf(chain: seq<Node>): seq<Str>
  {
    if chain == [] then [] else NonEmpty(chain[0].name) + NamesOf(chain[1..])
  }

  function PathString(chain: seq<Node>): Str
  {
    if NamesOf(chain) == [] then [SLASH] else Join(NamesOf(chain))
  }

  /** `path`: from the node up through its parents, then written in reverse. `chain` runs from the root to the node. */
  method PathOf(chain: seq<Node>) returns (path: Str)
    ensures path == PathString(chain)
  {
    var segments: seq<Str> := [];
    var i := |chain|;
    while i > 0
      invariant 0 <= i <= |chain|
      invariant Reverse(segments) == NamesOf(chain[i..])
    {
      i := i - 1;
      assert chain[i..][1..] == chain[i + 1..];
      if chain[i].name != [] {
        ReverseSnoc(segments, chain[i].name);
        segments := segments + [chain[i].name];
      }
    }
    assert chain[0..] == chain;
    if segments == [] { return [SLASH]; }
    ReverseEmpty(segments);
    path := JoinReversed(segments);
  }

  lemma ReverseEmpty<T>(s: seq<T>)
    ensures Reverse(s) == [] <==> s == []
  {
  }

  method JoinReversed(segments: seq<Str>) returns (path: Str)
    ensures path == Join(Reverse(segments))
  {
    hide Join, Reverse;
    path := [];
    var i := |segments|;
    assert segments[..i] == segments;
    assert path + Join(Reverse(segments)) == Join(Reverse(segments));
    while i > 0
      invariant 0 <= i <= |segments|
      invariant path + Join(Reverse(segments[..i])) == Join(Reverse(segments))
    {
      i := i - 1;
      assert segments[..i + 1] == segments[..i] + [segments[i]];
      ReverseSnoc(segments[..i], segments[i]);
      JoinMore(path, segments[i], Reverse(segments[..i]));
      path := path + [SLASH];
      path := path + segments[i];
    }
    assert segments[..0] == [];
    EndOfJoin(path);
  }

  lemma EndOfJoin(path: Str)
    ensures path + Join(Reverse([])) == path
  {
  }

  lemma JoinMore(path: Str, name: Str, rest: seq<Str>)
    ensures path + Join([name] + rest) == ((path + [SLASH]) + name) + Join(rest)
  {
    JoinStep(name, rest);
    hide Join;
    assert path + ([SLASH] + (name + Join(rest))) == ((path + [SLASH]) + name) + Join(rest);
  }

  lemma JoinStep(name: Str, names: seq<Str>)
    ensures Join([name] + names) == [SLASH] + (name + Join(names))
  {
    assert ([name] + names)[1..] == names;
  }

  function Reverse<T>(s: seq<T>): seq<T>
  {
    if s == [] then [] else Reverse(s[1..]) + [s[0]]
  }

  lemma {:induction false} ReverseSnoc<T>(s: seq<T>, x: T)
    ensures Reverse(s + [x]) == [x] + Reverse(s)
    decreases |s|
  {
    if s == [] {
      assert s + [x] == [x] && [x][1..] == [];
    } else {
      assert (s + [x])[1..] == s[1..] + [x];
      ReverseSnoc(s[1..], x);
    }
  }

  lemma {:induction false} SplitWord(name: Str, rest: Str, word: Str)
    requires SLASH !in name
    ensures Split(name + rest, word) == Split(rest, word + name)
    decreases |name|
  {
    if name == [] {
      assert name + rest == rest && word + name == word;
    } else {
      assert (name + rest)[1..] == name[1..] + rest;
      assert word + [name[0]] + name[1..] == word + name;
      SplitWord(name[1..], rest, word + [name[0]]);
    }
  }

  /** Splitting a joined path gives back its names. */
  lemma {:induction false} SplitJoin(names: seq<Str>, word: Str)
    requires forall s | s in names :: s != [] && SLASH !in s
    ensures Split(Join(names), word) == NonEmpty(word) + names
    decreases |names|
  {
    if names != [] {
      assert names[0] in names;
      var name, others := names[0], names[1..];
      assert names == [name] + others;
      JoinStep(name, others);
      SplitSlash(name + Join(others), word);
      SplitWord(name, Join(others), []);
      assert [] + name == name;
      SplitJoin(others, name);
    }
  }

  lemma SplitSlash(rest: Str, word: Str)
    ensures Split([SLASH] + rest, word) == NonEmpty(word) + Split(rest, [])
  {
    assert ([SLASH] + rest)[1..] == rest;
  }

  /** The nodes from the root to a place, root first. */
  function Chain(n: Node, p: Place): (chain: seq<Node>)
    requires NodeAt(n, p).Some?
    ensures chain != []
    decreases |p|
  {
    [n] + if p == [] then [] else Chain(n.children[p[0]], p[1..])
  }

  /** Below the root, names are nonempty and free of '/'. */
  predicate PlainNames(n: Node, p: Place)
    requires NodeAt(n, p).Some?
    decreases |p|
  {
    p != [] ==>
      var child := n.children[p[0]];
      child.name != [] && SLASH !in child.name && PlainNames(child, p[1..])
  }

  /** No earlier sibling on the way has the same name. */
  predicate FirstOfName(n: Node, p: Place)
    requires NodeAt(n, p).Some?
    decreases |p|
  {
    p != [] ==>
      && (forall i | 0 <= i < p[0] :: n.children[i].name != n.children[p[0]].name)
      && FirstOfName(n.children[p[0]], p[1..])
  }

  lemma {:induction false} ChildNamedIsFirst(ns: seq<Node>, k: nat)
    requires k < |ns|
    ensures ChildNamed(ns, ns[k].name).Some? && ChildNamed(ns, ns[k].name).value <= k
    ensures ChildNamed(ns, ns[k].name) == Some(k) <==> forall i | 0 <= i < k :: ns[i].name != ns[k].name
    decreases k
  {
    if k > 0 {
      var t := ns[1..];
      ChildNamedIsFirst(t, k - 1);
      assert t[k - 1] == ns[k];
      assert forall i | 0 <= i < k - 1 :: t[i] == ns[i + 1];
      if ns[0].name != ns[k].name && ChildNamed(t, ns[k].name) == Some(k - 1) {
        forall i | 0 <= i < k
          ensures ns[i].name != ns[k].name
        {
          if i > 0 { assert t[i - 1].name != t[k - 1].name; }
        }
      }
    }
  }

  lemma {:induction false} NamesArePlain(n: Node, p: Place)
    requires NodeAt(n, p).Some? && PlainNames(n, p)
    ensures forall s | s in NamesOf(Chain(n, p)[1..]) :: s != [] && SLASH !in s
    decreases |p|
  {
    if p != [] {
      NamesArePlain(n.children[p[0]], p[1..]);
      NamesStep(n, p);
    }
  }

  /** The names on the way: that of the child, then those below it. */
  lemma NamesStep(n: Node, p: Place)
    requires NodeAt(n, p).Some? && PlainNames(n, p) && p != []
    ensures var child := n.children[p[0]]; NamesOf(Chain(n, p)[1..]) == [child.name] + NamesOf(Chain(child, p[1..])[1..])
  {
    var child := n.children[p[0]];
    assert Chain(n, p)[1..] == Chain(child, p[1..]);
    assert Chain(child, p[1..])[0] == child;
  }

  lemma {:induction false} ResolveNames(n: Node, p: Place)
    requires NodeAt(n, p).Some? && PlainNames(n, p)
    ensures Resolve(n, NamesOf(Chain(n, p)[1..])) == Some(p) <==> FirstOfName(n, p)
    decreases |p|
  {
    hide Chain, NamesOf, ChildNamed;
    if p != [] {
      var child := n.children[p[0]];
      var below := NamesOf(Chain(child, p[1..])[1..]);
      NamesStep(n, p);
      assert ([child.name] + below)[1..] == below;
      ResolveNames(child, p[1..]);
      ChildNamedIsFirst(n.children, p[0]);
      var r := Resolve(n, [child.name] + below);
      assert p == [p[0]] + p[1..];
      if r.Some? && r.value == p { assert r.value[0] == p[0] && r.value[1..] == p[1..]; }
    } else {
      RootHasNoNames(n);
    }
  }

  lemma RootHasNoNames(n: Node)
    ensures NamesOf(Chain(n, [])[1..]) == []
  {
  }

  /** Looking up the path of a node returns that node exactly when it is the first of its name at every level. */
  lemma PathRoundTrip(t: Node, p: Place)
    requires NodeAt(t, p).Some? && t.name == [] && PlainNames(t, p)
    ensures SLASH in PathString(Chain(t, p))
    ensures Resolve(t, Segments(PathString(Chain(t, p)))) == Some(p) <==> FirstOfName(t, p)
  {
    NamesArePlain(t, p);
    ResolveNames(t, p);
    var names := NamesOf(Chain(t, p)[1..]);
    assert NamesOf(Chain(t, p)) == names;
    SplitJoin(names, []);
    if names == [] {
      assert [SLASH][1..] == [];
      assert Split([SLASH], []) == [];
    } else {
      assert Join(names)[0] == SLASH;
    }
  }

  /** The names on the way to p are the segments. */
  predicate Spells(n: Node, p: Place, segments: seq<Str>)
    requires NodeAt(n, p).Some?
    decreases |p|
  {
    if p == [] then segments == []
    else segments != [] && n.children[p[0]].name == segments[0] && Spells(n.children[p[0]], p[1..], segments[1..])
  }

  /** A path leads to the place its segments spell, through the first child of each name, and nowhere else. */
  lemma {:induction false} ResolveExactly(n: Node, segments: seq<Str>, p: Place)
    ensures Resolve(n, segments) == Some(p) <==> NodeAt(n, p).Some? && Spells(n, p, segments) && FirstOfName(n, p)
    decreases |segments|
  {
    if segments != [] {
      ChildNamedFinds(n.children, segments[0]);
      var c := ChildNamed(n.children, segments[0]);
      if c.Some? {
        ResolveExactly(n.children[c.value], segments[1..], if p == [] then [] else p[1..]);
        var below := Resolve(n.children[c.value], segments[1..]);
        if p != [] {
          assert p == [p[0]] + p[1..];
          if below.Some? {
            var q := [c.value] + below.value;
            assert q[0] == c.value && q[1..] == below.value;
          }
        }
      }
    }
  }

  lemma {:induction false} ChildNamedFinds(ns: seq<Node>, name: Str)
    ensures match ChildNamed(ns, name)
            case None => forall i | 0 <= i < |ns| :: ns[i].name != name
            case Some(k) => ns[k].name == name && forall i | 0 <= i < k :: ns[i].name != name
    decreases |ns|
  {
    if ns != [] {
      ChildNamedFinds(ns[1..], name);
      assert forall i | 0 < i < |ns| :: ns[i] == ns[1..][i - 1];
    }
  }

  /** Repeated and trailing slashes make no difference. */
  lemma {:induction false} SlashesCollapse(path: Str, rest: Str, word: Str)
    ensures Split(path + [SLASH, SLASH] + rest, word) == Split(path + [SLASH] + rest, word)
    ensures Split(path + [SLASH], word) == Split(path, word)
    decreases |path|
  {
    if path == [] {
      assert path + [SLASH, SLASH] + rest == [SLASH] + ([SLASH] + rest) && path + [SLASH] + rest == [SLASH] + rest;
      assert ([SLASH] + ([SLASH] + rest))[1..] == [SLASH] + rest && ([SLASH] + rest)[1..] == rest;
      assert path + [SLASH] == [SLASH] && [SLASH][1..] == [];
      assert NonEmpty(word) + Split(rest, []) == NonEmpty(word) + (NonEmpty([]) + Split(rest, []));
    } else {
      assert (path + [SLASH, SLASH] + rest)[1..] == path[1..] + [SLASH, SLASH] + rest;
      assert (path + [SLASH] + rest)[1..] == path[1..] + [SLASH] + rest && (path + [SLASH])[1..] == path[1..] + [SLASH];
      SlashesCollapse(path[1..], rest, if path[0] == SLASH then [] else word + [path[0]]);
    }
  }

  /** So it always returns the node when siblings have distinct names. */
  lemma {:induction false} DistinctSiblings(t: Node, p: Place)
    requires NodeAt(t, p).Some? && SiblingsDiffer(t)
    ensures FirstOfName(t, p)
    decreases |p|
  {
    if p != [] { DistinctSiblings(t.children[p[0]], p[1..]); }
  }

  predicate SiblingsDiffer(n: Node)
  {
    && (forall i, j | 0 <= i < j < |n.children| :: n.children[i].name != n.children[j].name)
    && forall c | c in n.children :: SiblingsDiffer(c)
  }

  // ----- visiting all nodes -----

  function Preorder(n: Node): seq<Node>
    decreases n, 1
  {
    [n] + PreorderAll(n.children)
  }

  function PreorderAll(ns: seq<Node>): seq<Node>
    decreases ns, 0
  {
    if ns == [] then [] else Preorder(ns[0]) + PreorderAll(ns[1..])
  }

  /** What a stack of nodes still has to yield, its top first. */
  function Pending(stack: seq<Node>): seq<Node>
  {
    if stack == [] then [] else Preorder(Top(stack)) + Pending(stack[..|stack| - 1])
  }

  lemma {:induction false} PendingPush(stack: seq<Node>, ns: seq<Node>)
    ensures Pending(stack + Reverse(ns)) == PreorderAll(ns) + Pending(stack)
    decreases |ns|
  {
    hide Preorder;
    if ns == [] {
      assert stack + Reverse(ns) == stack;
    } else {
      var s := stack + Reverse(ns);
      assert s[..|s| - 1] == stack + Reverse(ns[1..]);
      PendingPush(stack, ns[1..]);
    }
  }

  lemma PendingPop(stack: seq<Node>)
    requires stack != []
    ensures Pending(stack) == [Top(stack)] + Pending(stack[..|stack| - 1] + Reverse(Top(stack).children))
  {
    hide Reverse;
    PendingPush(stack[..|stack| - 1], Top(stack).children);
    ConsAppend(Top(stack), PreorderAll(Top(stack).children), Pending(stack[..|stack| - 1]));
  }

  lemma ConsAppend<T>(x: T, a: seq<T>, b: seq<T>)
    ensures ([x] + a) + b == [x] + (a + b)
  {
  }

  /** `Node::iter`: a stack, popped and refilled with the children in reverse. */
  class NodeWalk {
    var stack: seq<Node>

    constructor (root: Node)
      ensures Pending(stack) == Preorder(root)
    {
      stack := [root];
      new;
      assert stack[..0] == [];
    }

    method Next() returns (r: Option<Node>)
      modifies this
      ensures r.None? <==> old(Pending(stack)) == []
      ensures r.Some? ==> old(Pending(stack)) == [r.value] + Pending(stack)
      ensures r.None? ==> Pending(stack) == []
    {
      if stack == [] { return None; }
      hide Pending, Reverse;
      PendingPop(stack);
      var node, below := Top(stack), stack[..|stack| - 1];
      stack := below + Reverse(node.children);
      r := Some(node);
    }
  }

  /** The places of the nodes, in the order of the walk. */
  function Places(n: Node, at: Place): seq<Place>
    decreases n, 1
  {
    [at] + PlacesAll(n.children, at, 0)
  }

  function PlacesAll(ns: seq<Node>, at: Place, k: nat): seq<Place>
    decreases ns, 0
  {
    if ns == [] then [] else Places(ns[0], at + [k]) + PlacesAll(ns[1..], at, k + 1)
  }

  /** Two lists of the same length, places and the nodes at them. */
  ghost predicate NodesAt(root: Node, places: seq<Place>, nodes: seq<Node>)
  {
    |places| == |nodes| && forall i | 0 <= i < |places| :: NodeAt(root, places[i]) == Some(nodes[i])
  }

  lemma {:induction false} WalkMatches(root: Node, n: Node, at: Place)
    requires NodeAt(root, at) == Some(n)
    ensures NodesAt(root, Places(n, at), Preorder(n))
    decreases n, 1
  {
    assert n.children[0..] == n.children;
    WalkAllMatches(root, n, at, 0);
  }

  lemma {:induction false} WalkAllMatches(root: Node, n: Node, at: Place, k: nat)
    requires NodeAt(root, at) == Some(n) && k <= |n.children|
    ensures NodesAt(root, PlacesAll(n.children[k..], at, k), PreorderAll(n.children[k..]))
    decreases n, 0, |n.children| - k
  {
    hide NodeAt, Places, Preorder;
    if k < |n.children| {
      NodeAtChild(root, at, k);
      WalkMatches(root, n.children[k], at + [k]);
      WalkAllMatches(root, n, at, k + 1);
      assert n.children[k..][1..] == n.children[k + 1..];
    }
  }

  lemma {:induction false} PlacesHave(n: Node, at: Place, p: Place)
    ensures p in Places(n, at) <==> |at| <= |p| && p[..|at|] == at && NodeAt(n, p[|at|..]).Some?
    decreases n, 1
  {
    PlacesAllHave(n.children, at, 0, p);
    if |p| == |at| { assert p[..|at|] == p; }
  }

  lemma {:induction false} PlacesAllHave(ns: seq<Node>, at: Place, k: nat, p: Place)
    ensures p in PlacesAll(ns, at, k) <==>
              && |at| < |p| && p[..|at|] == at && k <= p[|at|] < k + |ns|
              && NodeAt(ns[p[|at|] - k], p[|at| + 1..]).Some?
    decreases ns, 0
  {
    hide Places, NodeAt;
    if ns != [] {
      PlacesHave(ns[0], at + [k], p);
      PlacesAllHave(ns[1..], at, k + 1, p);
      if |at| < |p| {
        assert p[..|at| + 1] == p[..|at|] + [p[|at|]];
        assert p[..|at| + 1] == at + [k] ==> p[..|at|] == (at + [k])[..|at|] && p[|at|] == (at + [k])[|at|];
      }
    }
  }

  lemma {:induction false} PlacesDistinct(n: Node, at: Place)
    ensures NoRepeats(Places(n, at))
    decreases n, 1
  {
    PlacesAllDistinct(n.children, at, 0);
    PlacesAllHave(n.children, at, 0, at);
    NoRepeatsConcat([at], PlacesAll(n.children, at, 0));
  }

  lemma {:induction false} PlacesAllDistinct(ns: seq<Node>, at: Place, k: nat)
    ensures NoRepeats(PlacesAll(ns, at, k))
    decreases ns, 0
  {
    hide Places, NoRepeats;
    if ns == [] {
      EmptyNoRepeats<Place>();
    } else {
      PlacesDistinct(ns[0], at + [k]);
      PlacesAllDistinct(ns[1..], at, k + 1);
      forall p | p in Places(ns[0], at + [k])
        ensures p !in PlacesAll(ns[1..], at, k + 1)
      {
        PlacesHave(ns[0], at + [k], p);
        PlacesAllHave(ns[1..], at, k + 1, p);
        assert p[|at|] == (at + [k])[|at|];
      }
      NoRepeatsConcat(Places(ns[0], at + [k]), PlacesAll(ns[1..], at, k + 1));
    }
  }

  lemma EmptyNoRepeats<T>()
    ensures NoRepeats<T>([])
  {
  }

  /** The walk visits every node of the tree exactly once, parents before children and siblings in order. */
  lemma WalkVisitsAllOnce(t: Node, p: Place)
    ensures NodesAt(t, Places(t, []), Preorder(t)) && NoRepeats(Places(t, []))
    ensures p in Places(t, []) <==> NodeAt(t, p).Some?
  {
    WalkMatches(t, t, []);
    PlacesDistinct(t, []);
    PlacesHave(t, [], p);
    assert p[0..] == p && p[..0] == [];
  }
}
