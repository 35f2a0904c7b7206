/** The written form of a structure block (section 5.4 of the Devicetree Specification v0.4), and the proof
    that the iterator reads it back token by token. */
module FdtFormat {
  import opened Basics
  import opened StructureBlock

  datatype Token = Nop | Begin(name: Str) | End | Property(nameOffset: nat, value: seq<byte>)

  function Be32(x: nat): seq<byte>
    requires x < 0x1_0000_0000
  {
    [x / 0x100_0000, x / 0x1_0000 % 0x100, x / 0x100 % 0x100, x % 0x100]
  }

  function Zeros(n: nat): seq<byte>
  {
    seq(n, _ => 0)
  }

  /** A name is followed by one to four NUL bytes, up to the next word. */
  function NamePadding(name: Str): nat
  {
    4 - |name| % 4
  }

  ghost predicate GoodName(s: Str)
  {
    0 !in s && Utf8(s)
  }

  /** What a writer may put in the block: real names, sizes that fit a word, property names that are in the strings block. */
  ghost predicate Encodable(t: Token, strings: seq<byte>)
  {
    match t
    case Begin(name) => GoodName(name)
    case Property(off, v) => off < 0x1_0000_0000 && |v| < 0x1_0000_0000 && CStr(strings, off).Some? && Utf8(CStr(strings, off).value)
    case _ => true
  }

  ghost predicate AllEncodable(toks: seq<Token>, strings: seq<byte>)
  {
    forall t | t in toks :: Encodable(t, strings)
  }

  function TokenWord(t: Token): nat
  {
    match t
    case Nop => FDT_NOP
    case Begin(_) => FDT_BEGIN_NODE
    case End => FDT_END_NODE
    case Property(_, _) => FDT_PROP
  }

  /** One token in front of `rest`: its word, then its name with NUL padding, or its length, name offset and
      value with zero padding. */
  ghost function EncodeToken(t: Token, rest: seq<byte>): seq<byte>
    requires t.Property? ==> t.nameOffset < 0x1_0000_0000 && |t.value| < 0x1_0000_0000
  {
    Be32(TokenWord(t)) + EncodeBody(t, rest)
  }

  ghost function EncodeBody(t: Token, rest: seq<byte>): seq<byte>
    requires t.Property? ==> t.nameOffset < 0x1_0000_0000 && |t.value| < 0x1_0000_0000
  {
    match t
    case Begin(name) => name + (Zeros(NamePadding(name)) + rest)
    case Property(off, v) => Be32(|v|) + (Be32(off) + (v + (Zeros(Align4(|v|) - |v|) + rest)))
    case _ => rest
  }

  /** A whole block: its tokens, then FDT_END. */
  ghost function Encode(toks: seq<Token>, strings: seq<byte>): seq<byte>
    requires AllEncodable(toks, strings)
  {
    if toks == [] then Be32(FDT_END)
    else
      assert Encodable(toks[0], strings) by { assert toks[0] in toks; }
      EncodeToken(toks[0], Encode(toks[1..], strings))
  }

  /** From `pos` on, the block reads as the given tokens. */
  ghost predicate Reads(blob: Blob, pos: nat, toks: seq<Token>)
  {
    && AllEncodable(toks, blob.strings)
    && pos <= |blob.structure| && blob.structure[pos..] == Encode(toks, blob.strings)
  }

  // ----- bytes -----

  lemma BigEndianOfBe32(x: nat)
    requires x < 0x1_0000_0000
    ensures BigEndian(Be32(x)[0], Be32(x)[1], Be32(x)[2], Be32(x)[3]) == x
  {
    var h, l := x / 0x1_0000, x % 0x1_0000;
    assert x / 0x100_0000 == h / 0x100 && x / 0x100 % 0x100 == l / 0x100 && x % 0x100 == l % 0x100;
  }

  lemma WordReadsBack(b: seq<byte>, pos: nat, x: nat, rest: seq<byte>)
    requires x < 0x1_0000_0000 && pos <= |b| && b[pos..] == Be32(x) + rest
    ensures pos + 4 <= |b| && Word(b, pos) == x && b[pos + 4..] == rest
  {
    BigEndianOfBe32(x);
    hide BigEndian;
    assert |Be32(x)| == 4;
    Skip(b, pos, Be32(x), rest);
    hide Be32;
    assert b[pos + 0] == Be32(x)[0] && b[pos + 1] == Be32(x)[1] && b[pos + 2] == Be32(x)[2] && b[pos + 3] == Be32(x)[3];
  }

  lemma Skip(b: seq<byte>, pos: nat, x: seq<byte>, rest: seq<byte>)
    requires pos <= |b| && b[pos..] == x + rest
    ensures pos + |x| <= |b| && b[pos..pos + |x|] == x && b[pos + |x|..] == rest
    ensures forall i | 0 <= i < |x| :: b[pos + i] == x[i]
  {
    var t := b[pos..];
    assert |t| == |x| + |rest|;
    assert b[pos..pos + |x|] == t[..|x|];
    assert b[pos + |x|..] == t[|x|..];
    forall i | 0 <= i < |x|
      ensures b[pos + i] == x[i]
    {
      assert b[pos + i] == t[i];
    }
  }

  lemma {:induction false} CStrReads(b: seq<byte>, pos: nat, name: Str)
    requires 0 !in name && pos + |name| < |b| && b[pos + |name|] == 0
    requires forall i | 0 <= i < |name| :: b[pos + i] == name[i]
    ensures CStr(b, pos) == Some(name)
    decreases |name|
  {
    if name != [] {
      forall i | 0 <= i < |name[1..]|
        ensures b[pos + 1 + i] == name[1..][i]
      {
        assert b[pos + (i + 1)] == name[i + 1];
      }
      assert b[pos + 0] == name[0] && name[0] in name;
      CStrReads(b, pos + 1, name[1..]);
      assert name == [name[0]] + name[1..];
    }
  }

  /** The word loop stops at the padded end of the name exactly when the name has at most 51 bytes. */
  lemma {:induction false} WordsReads(b: seq<byte>, pos: nat, name: Str, count: nat)
    requires 0 !in name && pos + 4 + |name| + NamePadding(name) <= |b|
    requires forall i | 0 <= i < |name| :: b[pos + 4 + i] == name[i]
    requires forall k | pos + 4 + |name| <= k < pos + 4 + |name| + NamePadding(name) :: b[k] == 0
    requires 1 <= count <= MAX_NAME_WORDS && 4 * (count - 1) <= |name|
    ensures WordsOfName(b, pos, count) == if |name| <= MAX_NAME_LENGTH then Count(|name| / 4 + 1) else TooLong
    decreases MAX_NAME_WORDS - count
  {
    var i := 4 * (count - 1) + 3;
    if i < |name| {
      assert b[pos + 4 + i] == name[i] && name[i] in name;
      if count < MAX_NAME_WORDS { WordsReads(b, pos, name, count + 1); }
    } else {
      assert b[pos + 4 + i] == 0;
    }
  }

  // ----- tokens -----

  function DropNops(toks: seq<Token>): (r: seq<Token>)
    ensures r != [] ==> !r[0].Nop?
    ensures |r| <= |toks|
  {
    if toks != [] && toks[0].Nop? then DropNops(toks[1..]) else toks
  }

  function DropProps(toks: seq<Token>): (r: seq<Token>)
    ensures r != [] ==> !r[0].Nop? && !r[0].Property?
    ensures |r| <= |toks|
  {
    if toks != [] && (toks[0].Nop? || toks[0].Property?) then DropProps(toks[1..]) else toks
  }

  lemma TailEncodable(toks: seq<Token>, strings: seq<byte>)
    requires AllEncodable(toks, strings) && toks != []
    ensures AllEncodable(toks[1..], strings) && Encodable(toks[0], strings)
  {
    forall t | t in toks[1..]
      ensures Encodable(t, strings)
    {
      assert t in toks;
    }
    assert toks[0] in toks;
  }

  function FirstWord(toks: seq<Token>): nat
  {
    if toks == [] then FDT_END else TokenWord(toks[0])
  }

  /** Past the first word of a nonempty block. */
  lemma FirstToken(blob: Blob, pos: nat, toks: seq<Token>)
    requires Reads(blob, pos, toks) && toks != []
    ensures Encodable(toks[0], blob.strings) && AllEncodable(toks[1..], blob.strings)
    ensures pos + 4 <= |blob.structure| && Word(blob.structure, pos) == TokenWord(toks[0])
    ensures blob.structure[pos + 4..] == EncodeBody(toks[0], Encode(toks[1..], blob.strings))
  {
    TailEncodable(toks, blob.strings);
    hide Be32, Word, AllEncodable, Utf8, CStr, EncodeBody;
    WordReadsBack(blob.structure, pos, TokenWord(toks[0]), EncodeBody(toks[0], Encode(toks[1..], blob.strings)));
  }

  lemma FirstWordReads(blob: Blob, pos: nat, toks: seq<Token>)
    requires Reads(blob, pos, toks)
    ensures pos + 4 <= |blob.structure| && Word(blob.structure, pos) == FirstWord(toks)
    ensures toks != [] && (toks[0].Nop? || toks[0].End?) ==> Reads(blob, pos + 4, toks[1..])
  {
    hide Word, Be32;
    if toks == [] {
      assert blob.structure[pos..] == Be32(FDT_END) + [];
      WordReadsBack(blob.structure, pos, FDT_END, []);
    } else {
      hide Encode;
      FirstToken(blob, pos, toks);
    }
  }

  lemma PropertyReads(blob: Blob, pos: nat, toks: seq<Token>)
    requires Reads(blob, pos, toks) && toks != [] && toks[0].Property?
    ensures Encodable(toks[0], blob.strings)
    ensures PropAt(blob, pos) == Some(Prop(CStr(blob.strings, toks[0].nameOffset).value, toks[0].value))
    ensures Reads(blob, PropEnd(blob.structure, pos), toks[1..])
  {
    FirstToken(blob, pos, toks);
    hide Reads, Word, Encode, AllEncodable, Utf8, CStr, Be32, PropAt;
    PropBody(blob.structure, pos, toks[0].nameOffset, toks[0].value, Encode(toks[1..], blob.strings));
    ReadsFrom(blob, PropEnd(blob.structure, pos), toks[1..]);
    PropFields(blob, pos, toks[0].nameOffset, toks[0].value);
  }

  lemma PropBody(b: seq<byte>, pos: nat, off: nat, v: seq<byte>, rest: seq<byte>)
    requires off < 0x1_0000_0000 && |v| < 0x1_0000_0000 && pos + 4 <= |b|
    requires b[pos + 4..] == EncodeBody(Property(off, v), rest)
    ensures pos + 12 <= |b| && Word(b, pos + 4) == |v| && Word(b, pos + 8) == off
    ensures PropEnd(b, pos) <= |b| && b[PropEnd(b, pos)..] == rest
    ensures b[pos + 12..pos + 12 + |v|] == v
  {
    hide Word, Be32;
    var padded := v + (Zeros(Align4(|v|) - |v|) + rest);
    WordReadsBack(b, pos + 4, |v|, Be32(off) + padded);
    WordReadsBack(b, pos + 8, off, padded);
    PaddedReads(b, pos + 12, v, Align4(|v|) - |v|, rest);
  }

  lemma PropFields(blob: Blob, pos: nat, off: nat, v: seq<byte>)
    requires pos + 12 <= |blob.structure| && Word(blob.structure, pos + 4) == |v| && Word(blob.structure, pos + 8) == off
    requires PropEnd(blob.structure, pos) <= |blob.structure| && blob.structure[pos + 12..pos + 12 + |v|] == v
    requires CStr(blob.strings, off).Some? && Utf8(CStr(blob.strings, off).value)
    ensures PropAt(blob, pos) == Some(Prop(CStr(blob.strings, off).value, v))
  {
    hide Word, CStr, Utf8;
  }

  lemma ReadsFrom(blob: Blob, pos: nat, toks: seq<Token>)
    requires AllEncodable(toks, blob.strings)
    requires pos <= |blob.structure| && blob.structure[pos..] == Encode(toks, blob.strings)
    ensures Reads(blob, pos, toks)
  {
  }

  lemma PaddedReads(b: seq<byte>, pos: nat, x: seq<byte>, n: nat, rest: seq<byte>)
    requires pos <= |b| && b[pos..] == x + (Zeros(n) + rest)
    ensures pos + |x| + n <= |b| && b[pos..pos + |x|] == x && b[pos + |x| + n..] == rest
    ensures forall i | 0 <= i < |x| :: b[pos + i] == x[i]
    ensures forall k | pos + |x| <= k < pos + |x| + n :: b[k] == 0
  {
    Skip(b, pos, x, Zeros(n) + rest);
    Skip(b, pos + |x|, Zeros(n), rest);
    forall k | pos + |x| <= k < pos + |x| + n
      ensures b[k] == 0
    {
      assert b[pos + |x| + (k - pos - |x|)] == Zeros(n)[k - pos - |x|];
    }
  }

  function NameWordCount(name: Str): nat
  {
    |name| / 4 + 1
  }

  /** What the word loop makes of a name: at most 51 bytes fit. */
  function WordsFor(name: Str): NameWords
  {
    if |name| <= MAX_NAME_LENGTH then Count(NameWordCount(name)) else TooLong
  }

  lemma BeginReads(blob: Blob, pos: nat, toks: seq<Token>)
    requires Reads(blob, pos, toks) && toks != [] && toks[0].Begin?
    ensures CStr(blob.structure, pos + 4) == Some(toks[0].name)
    ensures WordsOfName(blob.structure, pos, 1) == WordsFor(toks[0].name)
    ensures Reads(blob, pos + 4 * (1 + NameWordCount(toks[0].name)), toks[1..])
  {
    FirstToken(blob, pos, toks);
    hide Reads, Word, Encode, AllEncodable, Utf8, CStr, WordsOfName, NameWordCount, WordsFor;
    NameBody(blob.structure, pos, toks[0].name, Encode(toks[1..], blob.strings));
    ReadsFrom(blob, pos + 4 * (1 + NameWordCount(toks[0].name)), toks[1..]);
  }

  lemma NameBody(b: seq<byte>, pos: nat, name: Str, rest: seq<byte>)
    requires 0 !in name && pos + 4 <= |b| && b[pos + 4..] == name + (Zeros(NamePadding(name)) + rest)
    ensures CStr(b, pos + 4) == Some(name)
    ensures WordsOfName(b, pos, 1) == WordsFor(name)
    ensures var end := pos + 4 * (1 + NameWordCount(name)); end <= |b| && b[end..] == rest
  {
    hide CStr, WordsOfName;
    PaddedReads(b, pos + 4, name, NamePadding(name), rest);
    CStrReads(b, pos + 4, name);
    WordsReads(b, pos, name, 1);
  }

  lemma {:induction false} NopsSkipped(blob: Blob, pos: nat, toks: seq<Token>)
    requires Reads(blob, pos, toks)
    ensures SkipNops(blob.structure, pos).At? && Reads(blob, SkipNops(blob.structure, pos).pos, DropNops(toks))
    decreases |toks|
  {
    FirstWordReads(blob, pos, toks);
    if toks != [] && toks[0].Nop? {
      NopsSkipped(blob, pos + 4, toks[1..]);
    }
  }

  lemma DropPropsAfterNops(toks: seq<Token>)
    ensures DropProps(DropNops(toks)) == DropProps(toks)
  {
  }

  lemma {:induction false} PropsSkipped(blob: Blob, pos: nat, toks: seq<Token>)
    requires Reads(blob, pos, toks)
    ensures SkipProps(blob.structure, pos).At? && Reads(blob, SkipProps(blob.structure, pos).pos, DropProps(toks))
    decreases |toks|
  {
    NopsSkipped(blob, pos, toks);
    var p, t := SkipNops(blob.structure, pos).pos, DropNops(toks);
    DropPropsAfterNops(toks);
    FirstWordReads(blob, p, t);
    if t != [] && t[0].Property? {
      PropertyReads(blob, p, t);
      PropsSkipped(blob, PropEnd(blob.structure, p), t[1..]);
    }
  }

  function Remaining(toks: seq<Token>, skipProps: bool): seq<Token>
  {
    if skipProps then DropProps(toks) else DropNops(toks)
  }

  /** Where a raw node points: at its first property, and at its first child, when it has them. */
  ghost predicate PointsInto(node: RawNode, blob: Blob, body: seq<Token>)
  {
    && (node.props == Null <==> DropNops(body) == [] || !DropNops(body)[0].Property?)
    && (node.props.At? ==> Reads(blob, node.props.pos, DropNops(body)))
    && (node.children == Null <==> DropProps(body) == [] || !DropProps(body)[0].Begin?)
    && (node.children.At? ==> Reads(blob, node.children.pos, DropProps(body)))
  }

  ghost predicate NodeDecoded(blob: Blob, name: Str, body: seq<Token>, r: (Cursor, Item))
  {
    && r.1.Yield? && r.1.entry.BeginNode? && r.1.entry.node.name == name && PointsInto(r.1.entry.node, blob, body)
    && r.0.ptr.At? && Reads(blob, r.0.ptr.pos, DropNops(body)) && r.0.prev == FDT_BEGIN_NODE
  }

  /** What one call of `next` does on a well-written block, token by token. */
  ghost predicate Decodes(blob: Blob, c: Cursor, toks: seq<Token>, r: (Cursor, Item))
  {
    var t := Remaining(toks, c.skipProps);
    if t == [] then r.1 == if c.prev == FDT_BEGIN_NODE || c.prev == FDT_PROP then Error else Done
    else match t[0]
      case Nop => false
      case Begin(name) =>
        if |name| > MAX_NAME_LENGTH then r.1 == Error else NodeDecoded(blob, name, t[1..], r)
      case End => r.1 == Yield(EndNode) && r.0.ptr.At? && Reads(blob, r.0.ptr.pos, t[1..]) && r.0.prev == FDT_END_NODE
      case Property(off, v) =>
        if c.prev == FDT_END_NODE then r.1 == Error
        else
          && Encodable(t[0], blob.strings) && r.1 == Yield(PropEntry(Prop(CStr(blob.strings, off).value, v)))
          && r.0.ptr.At? && Reads(blob, r.0.ptr.pos, t[1..]) && r.0.prev == FDT_PROP
  }

  lemma StepDecodes(blob: Blob, c: Cursor, toks: seq<Token>)
    requires c.ptr.At? && c.prev != FDT_END && Reads(blob, c.ptr.pos, toks)
    ensures Decodes(blob, c, toks, Step(blob, c))
  {
    hide Reads, Word, CStr, WordsOfName, SkipProps, SkipNops, DropNops, DropProps, Encodable, Utf8;
    NopsSkipped(blob, c.ptr.pos, toks);
    PropsSkipped(blob, c.ptr.pos, toks);
    var p, t := NextToken(blob.structure, c.ptr.pos, c.skipProps).pos, Remaining(toks, c.skipProps);
    FirstWordReads(blob, p, t);
    if t != [] && t[0].Begin? {
      StepBeginDecodes(blob, c, p, t);
    } else if t != [] && t[0].Property? {
      PropertyReads(blob, p, t);
      FirstEncodable(blob, p, t);
    }
  }

  lemma FirstEncodable(blob: Blob, p: nat, t: seq<Token>)
    requires Reads(blob, p, t) && t != []
    ensures Encodable(t[0], blob.strings)
  {
    assert t[0] in t;
  }

  /** The node at a Begin token: its name, and where its first property and first child are. */
  lemma StepBeginDecodes(blob: Blob, c: Cursor, p: nat, t: seq<Token>)
    requires Reads(blob, p, t) && t != [] && t[0].Begin? && p + 4 <= |blob.structure|
    ensures |t[0].name| > MAX_NAME_LENGTH ==> StepBegin(blob.structure, c, p).1 == Error
    ensures |t[0].name| <= MAX_NAME_LENGTH ==> NodeDecoded(blob, t[0].name, t[1..], StepBegin(blob.structure, c, p))
  {
    BeginReads(blob, p, t);
    FirstEncodable(blob, p, t);
    var name := t[0].name;
    assert Utf8(name);
    hide Reads, Word, CStr, WordsOfName, SkipProps, SkipNops, DropNops, DropProps, Encodable, Utf8, PointsInto, NameWordCount;
    hide StepBegin, NodeDecoded;
    if |name| > MAX_NAME_LENGTH {
      LongName(blob.structure, c, p, name);
    } else {
      ShortName(blob, c, p, name, t[1..]);
    }
  }

  lemma LongName(b: seq<byte>, c: Cursor, p: nat, name: Str)
    requires p + 4 <= |b| && CStr(b, p + 4) == Some(name) && Utf8(name) && WordsOfName(b, p, 1) == TooLong
    ensures StepBegin(b, c, p).1 == Error
  {
  }

  lemma ShortName(blob: Blob, c: Cursor, p: nat, name: Str, body: seq<Token>)
    requires p + 4 <= |blob.structure| && CStr(blob.structure, p + 4) == Some(name) && Utf8(name)
    requires WordsOfName(blob.structure, p, 1) == Count(NameWordCount(name))
    requires Reads(blob, p + 4 * (1 + NameWordCount(name)), body)
    ensures NodeDecoded(blob, name, body, StepBegin(blob.structure, c, p))
  {
    hide Reads, Word, CStr, WordsOfName, SkipProps, SkipNops, DropNops, DropProps, Utf8, PointsInto, NameWordCount;
    BodyPointers(blob, p + 4 * (1 + NameWordCount(name)), body, name);
  }

  lemma BodyPointers(blob: Blob, q: nat, body: seq<Token>, name: Str)
    requires Reads(blob, q, body)
    ensures var b := blob.structure;
            && SkipNops(b, q).At? && Reads(blob, SkipNops(b, q).pos, DropNops(body))
            && SkipProps(b, SkipNops(b, q).pos).At?
            && PointsInto(RawNode(name,
                                  if Word(b, SkipNops(b, q).pos) == FDT_PROP then SkipNops(b, q) else Null,
                                  if Word(b, SkipProps(b, SkipNops(b, q).pos).pos) == FDT_BEGIN_NODE
                                  then SkipProps(b, SkipNops(b, q).pos) else Null), blob, body)
  {
    hide Reads, Word, SkipProps, SkipNops, DropNops, DropProps;
    NopsSkipped(blob, q, body);
    var next := SkipNops(blob.structure, q).pos;
    FirstWordReads(blob, next, DropNops(body));
    PropsSkipped(blob, next, DropNops(body));
    DropPropsAfterNops(body);
    FirstWordReads(blob, SkipProps(blob.structure, next).pos, DropProps(body));
  }
}
