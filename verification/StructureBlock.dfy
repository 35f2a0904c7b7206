/** The token iterator over the structure block of a flattened devicetree
    (src/kernel/devicetree/fdt/fdt_structure_block.rs), and the layout it decodes
    (section 5.4 of the Devicetree Specification v0.4). */
module StructureBlock {
  import opened Basics

  type Str = seq<byte>

  const FDT_BEGIN_NODE: nat := 1
  const FDT_END_NODE: nat := 2
  const FDT_PROP: nat := 3
  const FDT_NOP: nat := 4
  const FDT_END: nat := 9
  const MAX_NAME_WORDS: nat := 13
  const MAX_NAME_LENGTH: nat := 51

  /** The two blocks the parser reads; addresses are offsets into them. */
  datatype Blob = Blob(structure: seq<byte>, strings: seq<byte>)

  datatype Ptr = Null | At(pos: nat)

  // ----- reading the blob -----

  function BigEndian(b0: nat, b1: nat, b2: nat, b3: nat): nat
  {
    b0 * 0x100_0000 + b1 * 0x1_0000 + b2 * 0x100 + b3
  }

  /** `u32::from_be`. */
  function Word(b: seq<byte>, pos: nat): nat
    requires pos + 4 <= |b|
  {
    BigEndian(b[pos], b[pos + 1], b[pos + 2], b[pos + 3])
  }

  function Align4(n: nat): nat
  {
    (n + 3) / 4 * 4
  }

  /** `CStr::from_ptr`: the bytes up to the first NUL, if there is one in the block. */
  function CStr(b: seq<byte>, pos: nat): Option<Str>
    decreases |b| - pos
  {
    if pos >= |b| then None
    else if b[pos] == 0 then Some([])
    else match CStr(b, pos + 1)
      case None => None
      case Some(rest) => Some([b[pos]] + rest)
  }

  predicate Continuation(x: byte)
  {
    0x80 <= x < 0xC0
  }

  /** `CStr::to_str` accepts exactly well-formed UTF-8. */
  predicate Utf8(s: Str)
  {
    if s == [] then true
    else if s[0] < 0x80 then Utf8(s[1..])
    else if 0xC2 <= s[0] < 0xE0 then |s| >= 2 && Continuation(s[1]) && Utf8(s[2..])
    else if 0xE0 <= s[0] < 0xF0 then
      && |s| >= 3 && Continuation(s[1]) && Continuation(s[2])
      && (s[0] == 0xE0 ==> s[1] >= 0xA0) && (s[0] == 0xED ==> s[1] < 0xA0) && Utf8(s[3..])
    else if 0xF0 <= s[0] < 0xF5 then
      && |s| >= 4 && Continuation(s[1]) && Continuation(s[2]) && Continuation(s[3])
      && (s[0] == 0xF0 ==> s[1] >= 0x90) && (s[0] == 0xF4 ==> s[1] < 0x90) && Utf8(s[4..])
    else false
  }

  /** `next_non_nop_token`: the first token that is not a NOP; Null when the block ends before one. */
  function SkipNops(b: seq<byte>, pos: nat): (p: Ptr)
    ensures p.At? ==> pos <= p.pos && p.pos + 4 <= |b| && Word(b, p.pos) != FDT_NOP
    decreases |b| - pos
  {
    if pos + 4 > |b| then Null
    else if Word(b, pos) == FDT_NOP then SkipNops(b, pos + 4)
    else At(pos)
  }

  /** First byte after the property at `pos`. */
  function PropEnd(b: seq<byte>, pos: nat): nat
    requires pos + 12 <= |b|
  {
    pos + 12 + Align4(Word(b, pos + 4))
  }

  /** `next_non_nop_token_without_props`. */
  function SkipProps(b: seq<byte>, pos: nat): (p: Ptr)
    ensures p.At? ==> pos <= p.pos && p.pos + 4 <= |b| && Word(b, p.pos) != FDT_NOP && Word(b, p.pos) != FDT_PROP
    decreases |b| - pos
  {
    match SkipNops(b, pos)
    case Null => Null
    case At(p) =>
      if Word(b, p) != FDT_PROP then At(p)
      else if p + 12 > |b| || PropEnd(b, p) > |b| then Null
      else SkipProps(b, PropEnd(b, p))
  }

  datatype NameWords = Count(words: nat) | TooLong | OffEnd

  /** The word loop after FDT_BEGIN_NODE: the name ends with the first word whose last byte is zero
      (the word is compared as loaded, little-endian, so its last byte is the most significant). */
  function WordsOfName(b: seq<byte>, pos: nat, count: nat): (n: NameWords)
    requires 1 <= count <= MAX_NAME_WORDS
    ensures n.Count? ==> count <= n.words <= MAX_NAME_WORDS && pos + 4 * n.words + 4 <= |b|
    decreases MAX_NAME_WORDS - count
  {
    if pos + 4 * count + 4 > |b| then OffEnd
    else if b[pos + 4 * count + 3] == 0 then Count(count)
    else if count + 1 > MAX_NAME_WORDS then TooLong
    else WordsOfName(b, pos, count + 1)
  }

  // ----- one step of the iterator -----

  datatype RawNode = RawNode(name: Str, props: Ptr, children: Ptr)

  datatype Prop = Prop(name: Str, value: seq<byte>)

  datatype Entry = BeginNode(node: RawNode) | EndNode | PropEntry(prop: Prop)

  /** What `next` gives: an entry, an error, the end; Fault when the source reads outside the blob or panics. */
  datatype Item = Yield(entry: Entry) | Error | Done | Fault

  datatype Cursor = Cursor(ptr: Ptr, prev: nat, skipProps: bool)

  function NextToken(b: seq<byte>, pos: nat, skipProps: bool): (p: Ptr)
    ensures p.At? ==> pos <= p.pos && p.pos + 4 <= |b|
  {
    if skipProps then SkipProps(b, pos) else SkipNops(b, pos)
  }

  function StepBegin(b: seq<byte>, c: Cursor, pos: nat): (r: (Cursor, Item))
    requires pos + 4 <= |b|
    ensures r.1.Yield? ==> r.0.ptr.At? && pos < r.0.ptr.pos <= |b|
  {
    var name := CStr(b, pos + 4);
    if name.None? then (c, Fault)
    else if !Utf8(name.value) then (c.(ptr := At(pos)), Done)
    else match WordsOfName(b, pos, 1)
      case OffEnd => (c, Fault)
      case TooLong => (c.(ptr := Null, prev := FDT_BEGIN_NODE), Error)
      case Count(words) =>
        var next := SkipNops(b, pos + 4 * (1 + words));
        if next.Null? then (c, Fault)
        else
          var child := SkipProps(b, next.pos);
          if child.Null? then (c, Fault)
          else
            var props := if Word(b, next.pos) == FDT_PROP then next else Null;
            var children := if Word(b, child.pos) == FDT_BEGIN_NODE then child else Null;
            (c.(ptr := next, prev := FDT_BEGIN_NODE), Yield(BeginNode(RawNode(name.value, props, children))))
  }

  /** The property at `pos`: its name from the strings block, its value bytes in place. */
  function PropAt(blob: Blob, pos: nat): (r: Option<Prop>)
    ensures r.Some? ==> pos + 12 <= |blob.structure| && PropEnd(blob.structure, pos) <= |blob.structure|
  {
    var b := blob.structure;
    if pos + 12 > |b| || PropEnd(b, pos) > |b| then None
    else
      var name := CStr(blob.strings, Word(b, pos + 8));
      if name.None? || !Utf8(name.value) then None
      else Some(Prop(name.value, b[pos + 12..pos + 12 + Word(b, pos + 4)]))
  }

  function Step(blob: Blob, c: Cursor): (r: (Cursor, Item))
    ensures r.1.Yield? ==> c.ptr.At? && r.0.ptr.At? && c.ptr.pos < r.0.ptr.pos <= |blob.structure|
    ensures r.0.skipProps == c.skipProps
  {
    var b := blob.structure;
    if c.prev == FDT_END || c.ptr.Null? then (c, Done)
    else match NextToken(b, c.ptr.pos, c.skipProps)
      case Null => (c, Fault)
      case At(pos) =>
        var token := Word(b, pos);
        if token == FDT_BEGIN_NODE then StepBegin(b, c, pos)
        else if token == FDT_END_NODE then (c.(ptr := At(pos + 4), prev := token), Yield(EndNode))
        else if token == FDT_PROP then
          if c.prev == FDT_END_NODE then (c.(ptr := Null, prev := token), Error)
          else match PropAt(blob, pos)
            case None => (c, Fault)
            case Some(prop) => (c.(ptr := At(PropEnd(b, pos)), prev := token), Yield(PropEntry(prop)))
        else if token == FDT_END && c.prev != FDT_BEGIN_NODE && c.prev != FDT_PROP then
          (c.(ptr := Null, prev := token), Done)
        else (c.(ptr := Null, prev := token), Error)
  }

  /** Tokens by number (section 5.4.1 of the Devicetree Specification v0.4): 4 is skipped; anything but 1, 2, 3 and 9, a
      property (3) right after the end of a node (2), and an end (9) right after a node's begin (1) or a property end the
      iteration with an error; 9 anywhere else ends it without one, as does every call after that. */
  lemma TokensByNumber(blob: Blob, c: Cursor, pos: nat)
    requires c.ptr == At(pos) && c.prev != 9 && !c.skipProps && pos + 4 <= |blob.structure|
    ensures var token, item, next := Word(blob.structure, pos), Step(blob, c).1, Step(blob, c).0;
      && (token == 4 ==> var r := Step(blob, c.(ptr := At(pos + 4))); item == r.1 && (item != Fault ==> next == r.0))
      && (token !in {1, 2, 3, 4, 9} ==> item == Error && next.ptr == Null)
      && (token == 2 ==> item == Yield(EndNode) && next == Cursor(At(pos + 4), 2, false))
      && (token == 3 && c.prev == 2 ==> item == Error && next.ptr == Null)
      && (token == 9 ==> next.ptr == Null && item == if c.prev == 1 || c.prev == 3 then Error else Done)
  {
  }

  /** An iteration that has ended yields nothing more. */
  lemma EndedForGood(blob: Blob, c: Cursor)
    requires c.ptr.Null? || c.prev == 9
    ensures Step(blob, c) == (c, Done)
  {
  }

  /** The next multiple of four, and no later one. */
  lemma AlignLeast(n: nat)
    ensures Align4(n) % 4 == 0 && n <= Align4(n) < n + 4
  {
  }

  /** Big-endian: the first byte counts most. */
  lemma WordByBytes(b: seq<byte>, pos: nat)
    requires pos + 4 <= |b|
    ensures var b0: nat, b1: nat, b2: nat, b3: nat := b[pos], b[pos + 1], b[pos + 2], b[pos + 3];
      Word(b, pos) == ((b0 * 256 + b1) * 256 + b2) * 256 + b3
  {
  }

  /** The iterator itself: a pointer walking the block. */
  class StructureBlockIter {
    const blob: Blob
    var token: Ptr
    var prevToken: nat
    const skipProps: bool

    constructor (blob: Blob, token: Ptr, skipProps: bool)
      ensures this.blob == blob && Where() == Cursor(token, 0, skipProps) && this.skipProps == skipProps
    {
      this.blob := blob;
      this.token := token;
      this.prevToken := 0;
      this.skipProps := skipProps;
    }

    function Where(): Cursor
      reads this
    {
      Cursor(token, prevToken, skipProps)
    }

    /** Moves past NOPs; false when the block ends first. */
    method NextNonNopToken() returns (ok: bool, t: nat)
      requires token.At?
      modifies `token
      ensures ok <==> SkipNops(blob.structure, old(token.pos)).At?
      ensures ok ==> token == SkipNops(blob.structure, old(token.pos)) && t == Word(blob.structure, token.pos)
    {
      var b := blob.structure;
      while true
        invariant token.At? && SkipNops(b, token.pos) == SkipNops(b, old(token.pos))
        decreases |b| - token.pos
      {
        if token.pos + 4 > |b| { return false, 0; }
        t := Word(b, token.pos);
        if t != FDT_NOP { return true, t; }
        token := At(token.pos + 4);
      }
    }

    /** Moves past NOPs and properties. */
    method NextNonNopTokenWithoutProps() returns (ok: bool, t: nat)
      requires token.At?
      modifies `token
      ensures ok <==> SkipProps(blob.structure, old(token.pos)).At?
      ensures ok ==> token == SkipProps(blob.structure, old(token.pos)) && t == Word(blob.structure, token.pos)
    {
      var b := blob.structure;
      while true
        invariant token.At? && SkipProps(b, token.pos) == SkipProps(b, old(token.pos))
        decreases |b| - token.pos
      {
        ok, t := NextNonNopToken();
        if !ok || t != FDT_PROP { return; }
        if token.pos + 12 > |b| || PropEnd(b, token.pos) > |b| { return false, t; }
        token := At(PropEnd(b, token.pos));
      }
    }

    /** The word loop over a node name. */
    method CountNameWords() returns (n: NameWords)
      requires token.At?
      ensures n == WordsOfName(blob.structure, token.pos, 1)
    {
      var b, count := blob.structure, 1;
      while true
        invariant 1 <= count <= MAX_NAME_WORDS
        invariant WordsOfName(b, token.pos, count) == WordsOfName(b, token.pos, 1)
        decreases MAX_NAME_WORDS - count
      {
        if token.pos + 4 * count + 4 > |b| { return OffEnd; }
        if b[token.pos + 4 * count + 3] == 0 { return Count(count); }
        if count + 1 > MAX_NAME_WORDS { return TooLong; }
        count := count + 1;
      }
    }

    method Next() returns (item: Item)
      modifies this
      ensures item == Step(blob, old(Where())).1
      ensures item != Fault ==> Where() == Step(blob, old(Where())).0
    {
      if prevToken == FDT_END || token.Null? { return Done; }
      var ok, t;
      if skipProps {
        ok, t := NextNonNopTokenWithoutProps();
      } else {
        ok, t := NextNonNopToken();
      }
      if !ok { return Fault; }
      if t == FDT_BEGIN_NODE {
        item := BeginNodeHere();
      } else if t == FDT_END_NODE {
        token, prevToken := At(token.pos + 4), t;
        item := Yield(EndNode);
      } else if t == FDT_PROP {
        item := PropHere();
      } else {
        var previous := prevToken;
        token, prevToken := Null, t;
        if t == FDT_END && previous != FDT_BEGIN_NODE && previous != FDT_PROP { return Done; }
        item := Error;
      }
    }

    method BeginNodeHere() returns (item: Item)
      requires token.At? && token.pos + 4 <= |blob.structure|
      modifies this
      ensures item == StepBegin(blob.structure, old(Where()), old(token.pos)).1
      ensures item != Fault ==> Where() == StepBegin(blob.structure, old(Where()), old(token.pos)).0
    {
      var b := blob.structure;
      var name := CStr(b, token.pos + 4);
      if name.None? { return Fault; }
      if !Utf8(name.value) { return Done; }
      var n := CountNameWords();
      if n == OffEnd { return Fault; }
      if n == TooLong {
        token, prevToken := Null, FDT_BEGIN_NODE;
        return Error;
      }
      token, prevToken := At(token.pos + 4 * (1 + n.words)), FDT_BEGIN_NODE;
      var ok, t := NextNonNopToken();
      if !ok { return Fault; }
      var props := if t == FDT_PROP then token else Null;
      var saved := token;
      var more, next := NextNonNopTokenWithoutProps();
      if !more { return Fault; }
      var children := if next == FDT_BEGIN_NODE then token else Null;
      token := saved;
      item := Yield(BeginNode(RawNode(name.value, props, children)));
    }

    method PropHere() returns (item: Item)
      requires token.At?
      modifies this
      ensures old(prevToken) == FDT_END_NODE ==> item == Error && Where() == Cursor(Null, FDT_PROP, skipProps)
      ensures old(prevToken) != FDT_END_NODE ==>
                match PropAt(blob, old(token.pos))
                case None => item == Fault
                case Some(prop) => item == Yield(PropEntry(prop))
                                   && Where() == Cursor(At(PropEnd(blob.structure, old(token.pos))), FDT_PROP, skipProps)
    {
      var b := blob.structure;
      if prevToken == FDT_END_NODE {
        token, prevToken := Null, FDT_PROP;
        return Error;
      }
      var prop := PropAt(blob, token.pos);
      if prop.None? { return Fault; }
      token, prevToken := At(PropEnd(b, token.pos)), FDT_PROP;
      item := Yield(PropEntry(prop.value));
    }
  }
}
