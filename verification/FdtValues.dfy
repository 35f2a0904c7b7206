/** Property values read as lists: strings, and numbers of one or more cells
    (src/kernel/devicetree/fdt/raw_prop.rs). */
module FdtValues {
  import opened Basics
  import opened StructureBlock

  // ----- string lists -----

  datatype StringItem = Good(s: Str) | Bad

  /** `StringListIter::next`: the item at `index` and where the next one starts; a string without NUL ends the list. */
  function StringAt(bytes: seq<byte>, index: nat): (r: (StringItem, nat))
    requires index < |bytes|
    ensures index < r.1 <= |bytes|
  {
    match CStr(bytes, index)
    case None => (Bad, |bytes|)
    case Some(s) =>
      CStrEnds(bytes, index);
      (if Utf8(s) then Good(s) else Bad, index + |s| + 1)
  }

  lemma {:induction false} CStrEnds(b: seq<byte>, pos: nat)
    requires CStr(b, pos).Some?
    ensures pos + |CStr(b, pos).value| < |b|
    decreases |b| - pos
  {
    if pos < |b| && b[pos] != 0 { CStrEnds(b, pos + 1); }
  }

  function Strings(bytes: seq<byte>, index: nat): seq<StringItem>
    decreases |bytes| - index
  {
    if index >= |bytes| then []
    else var (item, next) := StringAt(bytes, index); [item] + Strings(bytes, next)
  }

  class StringListIter {
    const stringList: seq<byte>
    var currentIndex: nat

    constructor (bytes: seq<byte>)
      ensures stringList == bytes && currentIndex == 0
    {
      stringList := bytes;
      currentIndex := 0;
    }

    method Next() returns (r: Option<StringItem>)
      modifies this
      ensures r.None? <==> Strings(stringList, old(currentIndex)) == []
      ensures r.Some? ==> Strings(stringList, old(currentIndex)) == [r.value] + Strings(stringList, currentIndex)
      ensures r.None? ==> currentIndex == old(currentIndex)
    {
      if currentIndex >= |stringList| { return None; }
      var (item, next) := StringAt(stringList, currentIndex);
      currentIndex := next;
      r := Some(item);
    }
  }

  /** A list as it is written: every string with its NUL. */
  function Written(strings: seq<Str>): seq<byte>
  {
    if strings == [] then [] else strings[0] + ([0] + Written(strings[1..]))
  }

  function AllGood(strings: seq<Str>): seq<StringItem>
  {
    if strings == [] then [] else [Good(strings[0])] + AllGood(strings[1..])
  }

  lemma {:induction false} CStrOfWritten(bytes: seq<byte>, index: nat, s: Str, rest: seq<byte>)
    requires 0 !in s && index <= |bytes| && bytes[index..] == s + ([0] + rest)
    ensures CStr(bytes, index) == Some(s) && index + |s| + 1 <= |bytes| && bytes[index + |s| + 1..] == rest
    decreases |s|
  {
    var t := bytes[index..];
    assert |t| == |s| + 1 + |rest|;
    assert bytes[index] == t[0];
    if s == [] {
      assert bytes[index + 1..] == t[1..];
    } else {
      assert s[0] in s;
      assert bytes[index + 1..] == t[1..] == s[1..] + ([0] + rest);
      CStrOfWritten(bytes, index + 1, s[1..], rest);
      assert s == [s[0]] + s[1..];
    }
  }

  /** Reading a written list gives its strings back. */
  lemma {:induction false} StringsRoundTrip(bytes: seq<byte>, index: nat, strings: seq<Str>)
    requires index <= |bytes| && bytes[index..] == Written(strings)
    requires forall s | s in strings :: 0 !in s && Utf8(s)
    ensures Strings(bytes, index) == AllGood(strings)
    decreases |strings|
  {
    hide CStr, Utf8;
    if strings != [] {
      assert strings[0] in strings;
      CStrOfWritten(bytes, index, strings[0], Written(strings[1..]));
      StringsRoundTrip(bytes, index + |strings[0]| + 1, strings[1..]);
    } else {
      assert index == |bytes|;
    }
  }

  /** A string that is no UTF-8 is reported and skipped; one without NUL is reported and ends the list. */
  lemma BadStrings(bytes: seq<byte>, index: nat, s: Str, rest: seq<byte>)
    requires index <= |bytes| && 0 !in s
    ensures bytes[index..] == s + ([0] + rest) && !Utf8(s) ==>
              Strings(bytes, index) == [Bad] + Strings(bytes, index + |s| + 1) && bytes[index + |s| + 1..] == rest
    ensures bytes[index..] == s && s != [] ==> Strings(bytes, index) == [Bad]
  {
    if bytes[index..] == s + ([0] + rest) && !Utf8(s) {
      CStrOfWritten(bytes, index, s, rest);
    }
    if bytes[index..] == s && s != [] {
      NoCStr(bytes, index);
    }
  }

  lemma {:induction false} NoCStr(bytes: seq<byte>, index: nat)
    requires index <= |bytes| && 0 !in bytes[index..]
    ensures CStr(bytes, index).None?
    decreases |bytes| - index
  {
    if index < |bytes| {
      assert bytes[index] in bytes[index..];
      forall x | x in bytes[index + 1..]
        ensures x in bytes[index..]
      {
      }
      NoCStr(bytes, index + 1);
    }
  }

  // ----- numbers of several cells -----

  const WORD: nat := 0x1_0000_0000
  const U64: nat := 0x1_0000_0000_0000_0000

  /** A number written in n big-endian cells. */
  function Number(b: seq<byte>, pos: nat, n: nat): nat
    requires pos + 4 * n <= |b|
  {
    if n == 0 then 0 else Number(b, pos, n - 1) * WORD + Word(b, pos + 4 * (n - 1))
  }

  /** One cell, two cells: 32 bits each, the first counting most. */
  lemma NumberOfCells(b: seq<byte>, pos: nat)
    requires pos + 8 <= |b|
    ensures Number(b, pos, 0) == 0 && Number(b, pos, 1) == Word(b, pos)
    ensures Number(b, pos, 2) == Word(b, pos) * 0x1_0000_0000 + Word(b, pos + 4)
  {
    assert Number(b, pos, 1) == Number(b, pos, 0) * WORD + Word(b, pos);
  }

  lemma {:induction false} NumberBound(b: seq<byte>, pos: nat, n: nat)
    requires pos + 4 * n <= |b|
    ensures n <= 1 ==> Number(b, pos, n) < WORD
    ensures n <= 2 ==> Number(b, pos, n) < U64
    decreases n
  {
    if n > 0 { NumberBound(b, pos, n - 1); }
  }

  lemma ShiftModulo(x: nat, w: nat)
    requires w < WORD
    ensures (x % U64 * WORD % U64 + w) % U64 == (x * WORD + w) % U64 && x % U64 * WORD % U64 + w < U64
  {
    var q := x / U64;
    assert x == q * U64 + x % U64;
    var y := x % U64;
    var h, l := y / WORD, y % WORD;
    assert y == h * WORD + l && y * WORD == h * U64 + l * WORD;
    Cancel(h, l * WORD);
    assert x * WORD + w == (q * WORD + h) * U64 + (l * WORD + w);
    Cancel(q * WORD + h, l * WORD + w);
  }

  lemma Cancel(q: nat, r: nat)
    requires r < U64
    ensures (q * U64 + r) % U64 == r
  {
  }

  /** One turn of the loop: shift by a cell, which drops what leaves 64 bits, and add the next. */
  function ShiftIn(x: nat, w: nat): nat
  {
    x * WORD % U64 + w
  }

  lemma ShiftInModulo(x: nat, w: nat)
    requires w < WORD
    ensures ShiftIn(x % U64, w) == (x * WORD + w) % U64
  {
    ShiftModulo(x, w);
    Cancel(0, ShiftIn(x % U64, w));
  }

  lemma ShiftInStep(b: seq<byte>, pos: nat, i: nat)
    requires pos + 4 * (i + 1) <= |b|
    ensures ShiftIn(Number(b, pos, i) % U64, Word(b, pos + 4 * i)) == Number(b, pos, i + 1) % U64
  {
    WordBound(b, pos + 4 * i);
    var x, w := Number(b, pos, i), Word(b, pos + 4 * i);
    assert Number(b, pos, i + 1) == x * WORD + w;
    hide *;
    ShiftInModulo(x, w);
  }

  lemma WordBound(b: seq<byte>, pos: nat)
    requires pos + 4 <= |b|
    ensures Word(b, pos) < WORD
  {
  }

  lemma NumberIsSmall(b: seq<byte>, pos: nat, n: nat)
    requires pos + 4 * n <= |b| && n <= 2
    ensures Number(b, pos, n) % U64 == Number(b, pos, n)
  {
    NumberBound(b, pos, n);
    Cancel(0, Number(b, pos, n));
  }

  /** The accumulating loop keeps 64 bits: of a number wider than two cells, the last two remain. */
  method CellsToUsize(b: seq<byte>, pos: nat, n: nat) returns (result: nat)
    requires pos + 4 * n <= |b|
    ensures result == Number(b, pos, n) % U64
    ensures n <= 2 ==> result == Number(b, pos, n)
  {
    hide ShiftIn, Word;
    result := 0;
    var i := 0;
    while i < n
      invariant i <= n && result == Number(b, pos, i) % U64
    {
      hide Number;
      ShiftInStep(b, pos, i);
      result := ShiftIn(result, Word(b, pos + 4 * i));
      i := i + 1;
    }
    if n <= 2 { NumberIsSmall(b, pos, n); }
  }

  /** `value_as_prop_encoded_array_cells_iter`; None where the source asserts. */
  method CellArray(value: seq<byte>, size: nat) returns (r: Option<seq<nat>>)
    ensures r.Some? <==> size > 0 && |value| % (4 * size) == 0
    ensures r.Some? ==> |r.value| * (4 * size) == |value|
    ensures r.Some? ==> forall i: nat | i < |r.value| ::
              Chunk(i, 4 * size) + 4 * size <= |value| && r.value[i] == Number(value, Chunk(i, 4 * size), size) % U64
  {
    if size == 0 || |value| % (4 * size) != 0 { return None; }
    var chunk := 4 * size;
    var out: seq<nat> := [];
    var count := |value| / chunk;
    assert count * chunk == |value|;
    while |out| < count
      invariant |out| <= count
      invariant forall i: nat | i < |out| :: Chunk(i, chunk) + chunk <= |value| && out[i] == Number(value, Chunk(i, chunk), size) % U64
    {
      ChunkFits(|out|, count, chunk);
      var x := CellsToUsize(value, Chunk(|out|, chunk), size);
      out := out + [x];
    }
    r := Some(out);
  }

  function Chunk(i: nat, size: nat): nat
  {
    i * size
  }

  /** Chunks lie one behind the other from the start. */
  lemma ChunksFollow(i: nat, size: nat)
    ensures Chunk(0, size) == 0 && Chunk(i + 1, size) == Chunk(i, size) + size
  {
  }

  lemma ChunkFits(i: nat, n: nat, size: nat)
    requires i < n
    ensures Chunk(i, size) + size <= n * size
  {
    assert n * size == i * size + size + (n - i - 1) * size;
  }
}
