/** What the console takes for an escape sequence, as a grammar of bytes, and that the stripper removes exactly
    the sequences of that grammar (src/drivers/display/fb_console.rs, `write`). */
module EscapeGrammar {
  import opened Basics
  import opened Console

  /** What may follow an ESC: one byte; a control sequence with parameters and a final byte; an operating system command
      ended by BEL, or broken off by an ESC that starts the next sequence (as in ESC '\'); or another ESC. */
  datatype Tail =
    | Two(b: byte)
    | Control(params: seq<byte>, final: byte)
    | Command(payload: seq<byte>)
    | Broken(payload: seq<byte>, next: Tail)
    | Again(next: Tail)

  /** Parameter and intermediate bytes of a control sequence. */
  predicate AllParams(s: seq<byte>)
  {
    forall i | 0 <= i < |s| :: s[i] < 0x40 || s[i] > 0x7E
  }

  predicate AllPayload(s: seq<byte>)
  {
    forall i | 0 <= i < |s| :: s[i] != 0x07 && s[i] != 0x1B
  }

  predicate GoodTail(t: Tail)
  {
    match t
    case Two(b) => b != 0x5B && b != 0x5D && b != 0x1B
    case Control(params, final) => 0x40 <= final <= 0x7E && AllParams(params)
    case Command(payload) => AllPayload(payload)
    case Broken(payload, next) => GoodTail(next) && AllPayload(payload)
    case Again(next) => GoodTail(next)
  }

  function TailBytes(t: Tail): seq<byte>
  {
    match t
    case Two(b) => [b]
    case Control(params, final) => [0x5B] + params + [final]
    case Command(payload) => [0x5D] + payload + [0x07]
    case Broken(payload, next) => [0x5D] + payload + [0x1B] + TailBytes(next)
    case Again(next) => [0x1B] + TailBytes(next)
  }

  /** A piece of what is written: one byte of text, or an escape sequence. */
  datatype Item = Char(b: byte) | Sequence(tail: Tail)

  predicate GoodItem(i: Item)
  {
    match i
    case Char(b) => b != 0x1B
    case Sequence(t) => GoodTail(t)
  }

  function ItemBytes(i: Item): seq<byte>
  {
    match i
    case Char(b) => [b]
    case Sequence(t) => [0x1B] + TailBytes(t)
  }

  function ItemText(i: Item): seq<byte>
  {
    match i
    case Char(b) => [b]
    case Sequence(_) => []
  }

  function Render(items: seq<Item>): seq<byte>
  {
    if items == [] then []
    else ItemBytes(items[0]) + Render(items[1..])
  }

  function TextOf(items: seq<Item>): seq<byte>
  {
    if items == [] then []
    else ItemText(items[0]) + TextOf(items[1..])
  }

  // ----- the stripper on a sequence -----

  lemma Head(b: byte, rest: seq<byte>)
    ensures ([b] + rest)[0] == b && ([b] + rest)[1..] == rest
  {
  }

  lemma SkipByte(a: Ansi, b: byte, next: Ansi, rest: seq<byte>)
    requires Strip(a, b) == (next, false)
    ensures Stripped(a, [b] + rest) == Stripped(next, rest)
  {
    hide Strip;
    Head(b, rest);
    assert [] + Stripped(next, rest).1 == Stripped(next, rest).1;
  }

  lemma TextByte(b: byte, rest: seq<byte>)
    requires b != 0x1B
    ensures Stripped(Normal, [b] + rest) == (Stripped(Normal, rest).0, [b] + Stripped(Normal, rest).1)
  {
    Head(b, rest);
  }

  lemma {:induction false} ParamsPass(params: seq<byte>, rest: seq<byte>)
    requires AllParams(params)
    ensures Stripped(Csi, params + rest) == Stripped(Csi, rest)
    decreases |params|
  {
    if params == [] {
      assert params + rest == rest;
    } else {
      assert params + rest == [params[0]] + (params[1..] + rest);
      SkipByte(Csi, params[0], Csi, params[1..] + rest);
      ParamsPass(params[1..], rest);
    }
  }

  lemma {:induction false} PayloadPasses(payload: seq<byte>, rest: seq<byte>)
    requires AllPayload(payload)
    ensures Stripped(Osc, payload + rest) == Stripped(Osc, rest)
    decreases |payload|
  {
    if payload == [] {
      assert payload + rest == rest;
    } else {
      assert payload + rest == [payload[0]] + (payload[1..] + rest);
      SkipByte(Osc, payload[0], Osc, payload[1..] + rest);
      PayloadPasses(payload[1..], rest);
    }
  }

  lemma ControlVanishes(params: seq<byte>, final: byte, rest: seq<byte>)
    requires AllParams(params) && 0x40 <= final <= 0x7E
    ensures Stripped(Escape, [0x5B] + params + [final] + rest) == Stripped(Normal, rest)
  {
    assert [0x5B] + params + [final] + rest == [0x5B] + (params + ([final] + rest));
    SkipByte(Escape, 0x5B, Csi, params + ([final] + rest));
    ParamsPass(params, [final] + rest);
    SkipByte(Csi, final, Normal, rest);
  }

  lemma CommandVanishes(payload: seq<byte>, rest: seq<byte>)
    requires AllPayload(payload)
    ensures Stripped(Escape, [0x5D] + payload + [0x07] + rest) == Stripped(Normal, rest)
  {
    assert [0x5D] + payload + [0x07] + rest == [0x5D] + (payload + ([0x07] + rest));
    SkipByte(Escape, 0x5D, Osc, payload + ([0x07] + rest));
    PayloadPasses(payload, [0x07] + rest);
    SkipByte(Osc, 0x07, Normal, rest);
  }

  /** After an ESC, a sequence vanishes and text goes on. */
  lemma {:induction false} TailVanishes(t: Tail, rest: seq<byte>)
    requires GoodTail(t)
    ensures Stripped(Escape, TailBytes(t) + rest) == Stripped(Normal, rest)
    decreases t
  {
    hide Stripped, AllParams, AllPayload;
    match t
    case Two(b) =>
      SkipByte(Escape, b, Normal, rest);
    case Control(params, final) =>
      ControlVanishes(params, final, rest);
    case Command(payload) =>
      CommandVanishes(payload, rest);
    case Broken(payload, next) =>
      BrokenBegins(payload, TailBytes(next), rest);
      TailVanishes(next, rest);
    case Again(next) =>
      assert TailBytes(t) + rest == [0x1B] + (TailBytes(next) + rest);
      SkipByte(Escape, 0x1B, Escape, TailBytes(next) + rest);
      TailVanishes(next, rest);
  }

  lemma BrokenBegins(payload: seq<byte>, next: seq<byte>, rest: seq<byte>)
    requires AllPayload(payload)
    ensures Stripped(Escape, [0x5D] + payload + [0x1B] + next + rest) == Stripped(Escape, next + rest)
  {
    assert [0x5D] + payload + [0x1B] + next + rest == [0x5D] + (payload + ([0x1B] + (next + rest)));
    SkipByte(Escape, 0x5D, Osc, payload + ([0x1B] + (next + rest)));
    PayloadPasses(payload, [0x1B] + (next + rest));
    SkipByte(Osc, 0x1B, Escape, next + rest);
  }

  lemma OneItem(item: Item, more: seq<byte>)
    requires GoodItem(item)
    ensures Stripped(Normal, ItemBytes(item) + more) == (Stripped(Normal, more).0, ItemText(item) + Stripped(Normal, more).1)
  {
    hide Stripped;
    match item
    case Char(b) =>
      TextByte(b, more);
    case Sequence(t) =>
      assert [0x1B] + TailBytes(t) + more == [0x1B] + (TailBytes(t) + more);
      SkipByte(Normal, 0x1B, Escape, TailBytes(t) + more);
      TailVanishes(t, more);
      assert [] + Stripped(Normal, more).1 == Stripped(Normal, more).1;
  }

  /** Whatever is written as text and whole sequences strips to the text, and the stripper is back in Normal. */
  lemma {:induction false} ItemsStrip(items: seq<Item>, rest: seq<byte>)
    requires forall i | i in items :: GoodItem(i)
    ensures Stripped(Normal, Render(items) + rest) == (Stripped(Normal, rest).0, TextOf(items) + Stripped(Normal, rest).1)
    decreases |items|
  {
    hide Stripped, GoodItem, ItemBytes, ItemText;
    if items == [] {
      assert Render(items) + rest == rest && TextOf(items) + Stripped(Normal, rest).1 == Stripped(Normal, rest).1;
    } else {
      assert items[0] in items;
      var more := Render(items[1..]) + rest;
      ItemsStrip(items[1..], rest);
      OneItem(items[0], more);
      assert Render(items) + rest == ItemBytes(items[0]) + more;
      var text := Stripped(Normal, rest).1;
      assert TextOf(items) + text == ItemText(items[0]) + (TextOf(items[1..]) + text);
    }
  }

  // ----- every input is read by the grammar -----

  /** From an ESC on: a whole sequence and what follows it, or a sequence the input ends in. */
  datatype Reading = Whole(tail: Tail, rest: seq<byte>) | Unfinished

  lemma {:induction false} ReadParams(bytes: seq<byte>) returns (params: seq<byte>, r: Option<(byte, seq<byte>)>)
    ensures AllParams(params)
    ensures match r
            case None => bytes == params
            case Some(fr) => 0x40 <= fr.0 <= 0x7E && bytes == params + [fr.0] + fr.1
    decreases |bytes|
  {
    if bytes == [] {
      params, r := [], None;
    } else if 0x40 <= bytes[0] <= 0x7E {
      params, r := [], Some((bytes[0], bytes[1..]));
    } else {
      params, r := ReadParams(bytes[1..]);
      params := [bytes[0]] + params;
    }
  }

  lemma {:induction false} ReadPayload(bytes: seq<byte>) returns (payload: seq<byte>, r: Option<(byte, seq<byte>)>)
    ensures AllPayload(payload)
    ensures match r
            case None => bytes == payload
            case Some(er) => er.0 in {0x07, 0x1B} && bytes == payload + [er.0] + er.1
    decreases |bytes|
  {
    if bytes == [] {
      payload, r := [], None;
    } else if bytes[0] == 0x07 || bytes[0] == 0x1B {
      payload, r := [], Some((bytes[0], bytes[1..]));
    } else {
      payload, r := ReadPayload(bytes[1..]);
      payload := [bytes[0]] + payload;
    }
  }

  ghost predicate ReadsEscape(bytes: seq<byte>, r: Reading)
  {
    match r
    case Whole(tail, rest) => GoodTail(tail) && bytes == TailBytes(tail) + rest && |rest| < |bytes|
    case Unfinished => Stripped(Escape, bytes).0 != Normal && Stripped(Escape, bytes).1 == []
  }

  lemma ReadControl(more: seq<byte>) returns (r: Reading)
    ensures ReadsEscape([0x5B] + more, r)
  {
    var params, f := ReadParams(more);
    if f.Some? {
      r := Whole(Control(params, f.value.0), f.value.1);
      assert [0x5B] + more == TailBytes(r.tail) + r.rest;
    } else {
      r := Unfinished;
      SkipByte(Escape, 0x5B, Csi, more);
      assert more == params + [];
      ParamsPass(params, []);
    }
  }

  lemma {:induction false} ReadCommand(more: seq<byte>) returns (r: Reading)
    ensures ReadsEscape([0x5D] + more, r)
    decreases |more|, 0
  {
    var payload, e := ReadPayload(more);
    if e.None? {
      r := Unfinished;
      SkipByte(Escape, 0x5D, Osc, more);
      assert more == payload + [];
      PayloadPasses(payload, []);
    } else if e.value.0 == 0x07 {
      r := Whole(Command(payload), e.value.1);
      assert [0x5D] + more == TailBytes(r.tail) + r.rest;
    } else {
      var next := ReadTail(e.value.1);
      r := Unfinished;
      BrokenBegins(payload, e.value.1, []);
      assert [0x5D] + more == [0x5D] + payload + [0x1B] + e.value.1 + [];
      assert e.value.1 + [] == e.value.1;
      if next.Whole? {
        r := Whole(Broken(payload, next.tail), next.rest);
        assert [0x5D] + more == TailBytes(r.tail) + r.rest;
      }
    }
  }

  lemma {:induction false} ReadTail(bytes: seq<byte>) returns (r: Reading)
    ensures ReadsEscape(bytes, r)
    decreases |bytes|, 1
  {
    if bytes == [] { return Unfinished; }
    var b, more := bytes[0], bytes[1..];
    assert bytes == [b] + more;
    if b == 0x5B {
      r := ReadControl(more);
    } else if b == 0x5D {
      r := ReadCommand(more);
    } else if b == 0x1B {
      var next := ReadTail(more);
      r := Unfinished;
      SkipByte(Escape, 0x1B, Escape, more);
      if next.Whole? {
        r := Whole(Again(next.tail), next.rest);
        assert bytes == TailBytes(r.tail) + r.rest;
      }
    } else {
      r := Whole(Two(b), more);
    }
  }

  /** What the bytes are: text and whole sequences, and then nothing or the start of a sequence. */
  ghost predicate ReadsAs(bytes: seq<byte>, items: seq<Item>, open: seq<byte>)
  {
    && (forall i | i in items :: GoodItem(i)) && bytes == Render(items) + open
    && (open != [] ==> open[0] == 0x1B && Stripped(Normal, open).0 != Normal && Stripped(Normal, open).1 == [])
  }

  lemma OneMoreItem(item: Item, bytes: seq<byte>, more: seq<byte>, items: seq<Item>, open: seq<byte>)
    requires GoodItem(item) && ReadsAs(more, items, open) && bytes == ItemBytes(item) + more
    ensures ReadsAs(bytes, [item] + items, open)
  {
    hide Stripped, GoodItem, ItemBytes;
    assert ([item] + items)[1..] == items;
    assert Render([item] + items) + open == ItemBytes(item) + (Render(items) + open);
  }

  lemma Nothing(open: seq<byte>)
    requires open == [] || (open[0] == 0x1B && Stripped(Normal, open).0 != Normal && Stripped(Normal, open).1 == [])
    ensures ReadsAs(open, [], open)
  {
    hide Stripped;
    assert Render([]) + open == open;
  }

  lemma {:induction false} ReadItems(bytes: seq<byte>) returns (items: seq<Item>, open: seq<byte>)
    ensures ReadsAs(bytes, items, open)
    decreases |bytes|
  {
    hide Stripped, ReadsAs;
    if bytes == [] {
      Nothing([]);
      return [], [];
    }
    var b, more := bytes[0], bytes[1..];
    assert bytes == [b] + more;
    if b != 0x1B {
      items, open := ReadItems(more);
      OneMoreItem(Char(b), bytes, more, items, open);
      items := [Char(b)] + items;
    } else {
      var r := ReadTail(more);
      if r.Whole? {
        items, open := ReadItems(r.rest);
        assert bytes == ItemBytes(Sequence(r.tail)) + r.rest;
        OneMoreItem(Sequence(r.tail), bytes, r.rest, items, open);
        items := [Sequence(r.tail)] + items;
      } else {
        SkipByte(Normal, 0x1B, Escape, more);
        Nothing(bytes);
        items, open := [], bytes;
      }
    }
  }

  lemma NothingStrips()
    ensures Stripped(Normal, []) == (Normal, [])
  {
  }

  /** Any bytes are text and whole sequences and at most one unfinished sequence at the end, and exactly that text is left. */
  lemma StrippedIsText(bytes: seq<byte>) returns (items: seq<Item>, open: seq<byte>)
    ensures ReadsAs(bytes, items, open)
    ensures Stripped(Normal, bytes).1 == TextOf(items) && (Stripped(Normal, bytes).0 == Normal <==> open == [])
  {
    hide Stripped;
    items, open := ReadItems(bytes);
    ItemsStrip(items, open);
    NothingStrips();
    assert TextOf(items) + [] == TextOf(items);
  }

  /** A whole sequence in the middle of any text vanishes without a trace. */
  lemma SequenceVanishes(before: seq<Item>, t: Tail, after: seq<byte>)
    requires GoodTail(t) && forall i | i in before :: GoodItem(i)
    ensures Stripped(Normal, Render(before) + ([0x1B] + TailBytes(t) + after)) == Stripped(Normal, Render(before) + after)
  {
    ItemsStrip(before, [0x1B] + TailBytes(t) + after);
    ItemsStrip(before, after);
    assert [0x1B] + TailBytes(t) + after == [0x1B] + (TailBytes(t) + after);
    SkipByte(Normal, 0x1B, Escape, TailBytes(t) + after);
    TailVanishes(t, after);
  }

  /** The usual sequences, byte for byte: ESC [ 3 1 m (red), ESC ] 0 ; x BEL and ESC ] 0 ; x ESC \ (title), ESC c (reset). */
  lemma UsualSequences(after: seq<byte>)
    ensures Stripped(Normal, [0x1B, 0x5B, 0x33, 0x31, 0x6D] + after) == Stripped(Normal, after)
    ensures Stripped(Normal, [0x1B, 0x5D, 0x30, 0x3B, 0x78, 0x07] + after) == Stripped(Normal, after)
    ensures Stripped(Normal, [0x1B, 0x5D, 0x30, 0x3B, 0x78, 0x1B, 0x5C] + after) == Stripped(Normal, after)
    ensures Stripped(Normal, [0x1B, 0x63] + after) == Stripped(Normal, after)
  {
    hide Stripped;
    WholeSequence(Control([0x33, 0x31], 0x6D), [0x1B, 0x5B, 0x33, 0x31, 0x6D], after);
    WholeSequence(Command([0x30, 0x3B, 0x78]), [0x1B, 0x5D, 0x30, 0x3B, 0x78, 0x07], after);
    WholeSequence(Broken([0x30, 0x3B, 0x78], Two(0x5C)), [0x1B, 0x5D, 0x30, 0x3B, 0x78, 0x1B, 0x5C], after);
    WholeSequence(Two(0x63), [0x1B, 0x63], after);
  }

  lemma WholeSequence(t: Tail, bytes: seq<byte>, after: seq<byte>)
    requires GoodTail(t) && bytes == [0x1B] + TailBytes(t)
    ensures Stripped(Normal, bytes + after) == Stripped(Normal, after)
  {
    assert Render([]) == [] && [] + after == after && [] + (bytes + after) == bytes + after;
    SequenceVanishes([], t, after);
  }

  /** Bytes without ESC are all text. */
  lemma {:induction false} PlainTextStays(bytes: seq<byte>)
    requires 0x1B !in bytes
    ensures Stripped(Normal, bytes) == (Normal, bytes)
    decreases |bytes|
  {
    if bytes != [] {
      assert bytes == [bytes[0]] + bytes[1..] && bytes[0] in bytes;
      TextByte(bytes[0], bytes[1..]);
      PlainTextStays(bytes[1..]);
    }
  }
}
