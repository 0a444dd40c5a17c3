/**
 RTCP source description packets (RFC 3550 section 6.5): how their chunks and items are laid out, and
 how the program finds them again by walking from one to the next. Where the program would read outside
 the packet's memory, which it does not check, the functions give None.
 */
module Sdes {
  import opened Bytes

  datatype Item = Item(itemType: byte, text: seq<byte>)

  datatype Chunk = Chunk(ssrc: uint32, items: seq<Item>)

  function ItemSize(textLength: int): int
  {
    textLength + 2
  }

  function ItemsSize(lengths: seq<int>): int
  {
    if lengths == [] then 0 else ItemSize(lengths[0]) + ItemsSize(lengths[1..])
  }

  /** The size in bytes of a chunk with the source and the null-terminated items, counted in words of 8 bits. */
  function ChunkSize(lengths: seq<int>): (size: int)
  {
    SizeFor(ItemsSize(lengths))
  }

  function SizeFor(itemsSize: int): (size: int)
  {
    ((itemsSize + 4) / 4 % 256 + 1) * 4
  }

  function ChunksSize(lengths: seq<seq<int>>): int
  {
    if lengths == [] then 0 else ChunkSize(lengths[0]) + ChunksSize(lengths[1..])
  }

  /** The source, the items, and one to four null bytes fit exactly when the items take at most 1019 bytes. */
  lemma ChunkHoldsItemsExactly(itemsSize: int)
    requires 0 <= itemsSize
    ensures SizeFor(itemsSize) % 4 == 0
    ensures itemsSize <= 1019 <==> 1 <= SizeFor(itemsSize) - 4 - itemsSize <= 4
    ensures itemsSize > 1019 ==> SizeFor(itemsSize) < 4 + itemsSize
    ensures 0 < SizeFor(itemsSize) <= 1024
  {}

  // ----- Layout -----

  function EncodeItem(item: Item): (s: seq<byte>)
    requires |item.text| <= 255
    ensures |s| == ItemSize(|item.text|)
  {
    [item.itemType, |item.text|] + item.text
  }

  predicate Fits(items: seq<Item>)
  {
    && (forall i :: 0 <= i < |items| ==> items[i].itemType != 0 && |items[i].text| <= 255)
  }

  function LengthsOf(items: seq<Item>): (lengths: seq<int>)
    ensures |lengths| == |items|
  {
    if items == [] then [] else [|items[0].text|] + LengthsOf(items[1..])
  }

  function EncodeItems(items: seq<Item>): (s: seq<byte>)
    requires Fits(items)
    ensures |s| == ItemsSize(LengthsOf(items))
  {
    if items == [] then [] else EncodeItem(items[0]) + EncodeItems(items[1..])
  }

  /** Items with a type and at most 255 bytes of text each, 1019 bytes in all. */
  predicate IsChunk(c: Chunk)
  {
    Fits(c.items) && ItemsSize(LengthsOf(c.items)) <= 1019
  }

  function Nulls(n: nat): (s: seq<byte>)
    ensures |s| == n
  {
    seq(n, _ => 0)
  }

  function EncodeChunk(c: Chunk): (s: seq<byte>)
    requires IsChunk(c)
    ensures |s| == ChunkSize(LengthsOf(c.items))
  {
    var items := EncodeItems(c.items);
    ChunkHoldsItemsExactly(|items|);
    Octets32(c.ssrc) + items + Nulls(SizeFor(|items|) - 4 - |items|)
  }

  predicate AreChunks(chunks: seq<Chunk>)
  {
    forall i :: 0 <= i < |chunks| ==> IsChunk(chunks[i])
  }

  function EncodeChunks(chunks: seq<Chunk>): (s: seq<byte>)
    requires AreChunks(chunks)
  {
    if chunks == [] then [] else EncodeChunk(chunks[0]) + EncodeChunks(chunks[1..])
  }

  // ----- Walking -----

  /** The text lengths of the items from p on, up to a null type. */
  function ItemLengths(s: seq<byte>, p: nat): (lengths: Option<seq<int>>)
    ensures lengths.Some? ==> forall i :: 0 <= i < |lengths.value| ==> 0 <= lengths.value[i] <= 255
    decreases |s| - p
  {
    if p >= |s| then None
    else if s[p] == 0 then Some([])
    else if p + 1 >= |s| then None
    else
      var rest := ItemLengths(s, p + ItemSize(s[p + 1]));
      if rest == None then None else Some([s[p + 1] as int] + rest.value)
  }

  function GetSize(s: seq<byte>, p: nat): (size: Option<int>)
    ensures size.Some? ==> 0 < size.value <= 1024
  {
    var lengths := ItemLengths(s, p + 4);
    if lengths == None then None
    else
      ItemsSizeNonnegative(lengths.value);
      ChunkHoldsItemsExactly(ItemsSize(lengths.value));
      Some(ChunkSize(lengths.value))
  }

  lemma ItemsSizeNonnegative(lengths: seq<int>)
    requires forall i :: 0 <= i < |lengths| ==> 0 <= lengths[i]
    ensures 0 <= ItemsSize(lengths)
  {}

  /** Where the item with the number is, walking from the one at p. */
  function GetItem(s: seq<byte>, p: nat, num: nat): (q: Option<nat>)
    decreases num
  {
    if num == 0 then Some(p)
    else if p + 1 >= |s| then None
    else GetItem(s, p + ItemSize(s[p + 1]), num - 1)
  }

  /** Where the chunk with the number is, walking from the one at p. */
  function GetChunk(s: seq<byte>, p: nat, num: nat): (q: Option<nat>)
    decreases num
  {
    if num == 0 then Some(p)
    else
      var size := GetSize(s, p);
      if size == None then None else GetChunk(s, p + size.value, num - 1)
  }

  // ----- Strings standing in a buffer -----

  predicate Stands(s: seq<byte>, p: int, t: seq<byte>)
  {
    0 <= p && p + |t| <= |s| && s[p..p + |t|] == t
  }

  lemma StandsSplit(s: seq<byte>, p: int, a: seq<byte>, b: seq<byte>)
    ensures Stands(s, p, a + b) <==> Stands(s, p, a) && Stands(s, p + |a|, b)
  {
    if 0 <= p && p + |a| + |b| <= |s| {
      var w := s[p..p + |a| + |b|];
      assert w[..|a|] == s[p..p + |a|] && w[|a|..] == s[p + |a|..p + |a| + |b|];
      assert w == a + b <==> w[..|a|] == a && w[|a|..] == b;
    }
  }

  lemma StandsAt(s: seq<byte>, p: int, t: seq<byte>, i: nat)
    requires Stands(s, p, t) && i < |t|
    ensures 0 <= p + i < |s| && s[p + i] == t[i]
  {
    assert s[p..p + |t|][i] == s[p + i];
  }

  /** The bytes before an item, and before a chunk. */
  function ItemOffset(items: seq<Item>, num: nat): (offset: nat)
    requires num <= |items|
    decreases num
  {
    if num == 0 then 0 else 2 + |items[0].text| + ItemOffset(items[1..], num - 1)
  }

  function ChunkOffset(chunks: seq<Chunk>, num: nat): (offset: nat)
    requires AreChunks(chunks) && num <= |chunks|
    decreases num
  {
    if num == 0 then 0 else |EncodeChunk(chunks[0])| + ChunkOffset(chunks[1..], num - 1)
  }

  lemma ItemsWithin(s: seq<byte>, p: int, a: seq<byte>, b: seq<byte>)
    ensures Stands(s, p, a + b) ==> 0 <= p && p + |a| + |b| <= |s|
  {}

  lemma FirstItem(items: seq<Item>)
    requires Fits(items) && items != []
    ensures items[0].itemType != 0 && Fits(items[1..]) && |items[0].text| <= 255
    ensures EncodeItems(items) == EncodeItem(items[0]) + EncodeItems(items[1..])
  {
    hide EncodeItem;
  }

  lemma ItemOctets(item: Item)
    requires |item.text| <= 255
    ensures var s := EncodeItem(item); |s| == 2 + |item.text| && s[0] == item.itemType && s[1] == |item.text|
  {}

  lemma ItemsSplit(s: seq<byte>, p: nat, items: seq<Item>, nulls: nat)
    requires Fits(items) && items != []
    requires Stands(s, p, EncodeItems(items) + Nulls(nulls))
    ensures var size := 2 + |items[0].text|;
            && Fits(items[1..])
            && Stands(s, p, EncodeItem(items[0])) && Stands(s, p + size, EncodeItems(items[1..]) + Nulls(nulls))
            && p + 1 < |s| && s[p] == items[0].itemType != 0 && s[p + 1] == |items[0].text|
  {
    hide *;
    FirstItem(items);
    ItemOctets(items[0]);
    var first, rest := EncodeItem(items[0]), EncodeItems(items[1..]) + Nulls(nulls);
    ConcatAssociative(first, EncodeItems(items[1..]), Nulls(nulls));
    StandsSplit(s, p, first, rest);
    StandsAt(s, p, first, 0);
    StandsAt(s, p, first, 1);
  }

  /** Walking over one item, in the text lengths and to the items behind it. */
  lemma ItemStep(s: seq<byte>, p: nat, num: nat)
    requires p + 1 < |s| && s[p] != 0
    ensures var q := p + 2 + s[p + 1];
            && GetItem(s, p, num + 1) == GetItem(s, q, num)
            && ItemLengths(s, p) ==
               if ItemLengths(s, q) == None then None else Some([s[p + 1] as int] + ItemLengths(s, q).value)
  {}

  lemma FirstOffset(items: seq<Item>, num: nat)
    requires num <= |items|
    ensures num > 0 ==> ItemOffset(items, num) == 2 + |items[0].text| + ItemOffset(items[1..], num - 1)
    ensures num == 0 ==> ItemOffset(items, num) == 0
    ensures items != [] ==> LengthsOf(items) == [|items[0].text|] + LengthsOf(items[1..])
  {}

  lemma NoItemsFound(s: seq<byte>, p: nat, nulls: nat)
    requires nulls > 0 && Stands(s, p, EncodeItems([]) + Nulls(nulls))
    ensures ItemLengths(s, p) == Some(LengthsOf([])) && GetItem(s, p, 0) == Some(p) && ItemOffset([], 0) == 0
  {
    assert EncodeItems([]) + Nulls(nulls) == Nulls(nulls);
    StandsAt(s, p, Nulls(nulls), 0);
  }

  /** Items that stand in front of a null byte are found, each where it stands. */
  lemma {:induction false} ItemsFound(s: seq<byte>, p: nat, items: seq<Item>, nulls: nat, num: nat)
    requires Fits(items) && nulls > 0 && num <= |items|
    requires Stands(s, p, EncodeItems(items) + Nulls(nulls))
    ensures ItemLengths(s, p) == Some(LengthsOf(items))
    ensures GetItem(s, p, num) == Some(p + ItemOffset(items, num))
    ensures num < |items| ==> Stands(s, p + ItemOffset(items, num), EncodeItem(items[num]))
    decreases |items|
  {
    hide *;
    if items == [] {
      NoItemsFound(s, p, nulls);
    } else {
      var q := p + 2 + |items[0].text|;
      ItemsSplit(s, p, items, nulls);
      FirstOffset(items, num);
      if num > 0 {
        ItemsFound(s, q, items[1..], nulls, num - 1);
        ItemStep(s, p, num - 1);
      } else {
        ItemsFound(s, q, items[1..], nulls, 0);
        ItemStep(s, p, 0);
        GetFirst(s, p);
      }
    }
  }

  lemma GetFirst(s: seq<byte>, p: nat)
    ensures GetItem(s, p, 0) == Some(p)
  {}

  /** The size of a chunk is found from its items. */
  lemma SizeFound(s: seq<byte>, p: nat, items: seq<Item>)
    requires Fits(items) && ItemLengths(s, p + 4) == Some(LengthsOf(items))
    ensures GetSize(s, p) == Some(SizeFor(|EncodeItems(items)|))
  {
    hide EncodeItems, ItemLengths, LengthsOf, SizeFor, ItemsSize;
  }

  lemma EncodedSize(c: Chunk)
    requires IsChunk(c)
    ensures Fits(c.items) && |EncodeChunk(c)| == SizeFor(|EncodeItems(c.items)|)
  {
    hide EncodeItems, EncodeChunk, SizeFor, ItemsSize;
  }

  lemma ChunkFound(s: seq<byte>, p: nat, c: Chunk, num: nat)
    requires IsChunk(c) && Stands(s, p, EncodeChunk(c)) && num <= |c.items|
    ensures GetSize(s, p) == Some(|EncodeChunk(c)|)
    ensures ItemLengths(s, p + 4) == Some(LengthsOf(c.items))
    ensures p + 4 <= |s| && U32(s, p) == c.ssrc
    ensures GetItem(s, p + 4, num) == Some(p + 4 + ItemOffset(c.items, num))
    ensures num < |c.items| ==> Stands(s, p + 4 + ItemOffset(c.items, num), EncodeItem(c.items[num]))
  {
    hide *;
    EncodedSize(c);
    ChunkSplit(s, p, c);
    ItemsFound(s, p + 4, c.items, SizeFor(|EncodeItems(c.items)|) - 4 - |EncodeItems(c.items)|, num);
    SizeFound(s, p, c.items);
  }

  lemma ChunkSplit(s: seq<byte>, p: nat, c: Chunk)
    requires IsChunk(c) && Stands(s, p, EncodeChunk(c))
    ensures var items := EncodeItems(c.items);
            && |items| <= 1019 && SizeFor(|items|) - 4 - |items| > 0
            && p + 4 <= |s| && U32(s, p) == c.ssrc
            && Stands(s, p + 4, items + Nulls(SizeFor(|items|) - 4 - |items|))
  {
    hide Stands, Fits, EncodeItems;
    var items := EncodeItems(c.items);
    ChunkHoldsItemsExactly(|items|);
    var nulls := SizeFor(|items|) - 4 - |items|;
    ConcatAssociative(Octets32(c.ssrc), items, Nulls(nulls));
    ItemsWithin(s, p, Octets32(c.ssrc), items + Nulls(nulls));
    StandsSplit(s, p, Octets32(c.ssrc), items + Nulls(nulls));
    StandsAt(s, p, Octets32(c.ssrc), 0);
    StandsAt(s, p, Octets32(c.ssrc), 1);
    StandsAt(s, p, Octets32(c.ssrc), 2);
    StandsAt(s, p, Octets32(c.ssrc), 3);
    ItemsWithin(s, p, Octets32(c.ssrc), items + Nulls(nulls));
  }

  lemma ChunksSplit(s: seq<byte>, p: nat, chunks: seq<Chunk>)
    requires AreChunks(chunks) && chunks != [] && Stands(s, p, EncodeChunks(chunks))
    ensures AreChunks(chunks[1..]) && IsChunk(chunks[0]) && Stands(s, p, EncodeChunk(chunks[0]))
    ensures Stands(s, p + |EncodeChunk(chunks[0])|, EncodeChunks(chunks[1..]))
  {
    hide EncodeChunk, IsChunk, Stands;
    StandsSplit(s, p, EncodeChunk(chunks[0]), EncodeChunks(chunks[1..]));
  }

  /** Each chunk is found where it stands. */
  lemma {:induction false} ChunksFound(s: seq<byte>, p: nat, chunks: seq<Chunk>, num: nat)
    requires AreChunks(chunks) && Stands(s, p, EncodeChunks(chunks)) && num <= |chunks|
    ensures GetChunk(s, p, num) == Some(p + ChunkOffset(chunks, num))
    ensures num < |chunks| ==> Stands(s, p + ChunkOffset(chunks, num), EncodeChunk(chunks[num]))
    decreases num
  {
    hide EncodeChunk, EncodeChunks, GetSize, Stands, IsChunk, AreChunks, ItemLengths, GetItem, LengthsOf,
         ItemOffset, EncodeItem;
    if chunks != [] {
      ChunksSplit(s, p, chunks);
    }
    if num > 0 {
      ChunkFound(s, p, chunks[0], 0);
      ChunksFound(s, p + |EncodeChunk(chunks[0])|, chunks[1..], num - 1);
    }
  }

  // ----- Packets -----

  /**
   The size of the items from q on, or -1 when one of them is too large for the chunk; the size of the
   items before it is not taken into account.
   */
  function SafeItemsSize(s: seq<byte>, q: nat, maxChunkSize: int): (size: Option<int>)
    ensures size.Some? ==> -1 <= size.value
    decreases |s| - q
  {
    if q >= |s| then None
    else if s[q] == 0 then Some(0)
    else if 4 + ItemSize(0) > maxChunkSize then Some(-1)
    else if q + 1 >= |s| then None
    else if 4 + ItemSize(s[q + 1]) >= maxChunkSize then Some(-1)
    else
      var rest := SafeItemsSize(s, q + ItemSize(s[q + 1]), maxChunkSize);
      if rest == None || rest.value == -1 then rest else Some(ItemSize(s[q + 1]) + rest.value)
  }

  /** The size of the chunk at p, or -1 when it is invalid. */
  function SafelyCountChunkSize(s: seq<byte>, p: nat, maxChunkSize: int): (size: Option<int>)
    ensures size.Some? ==> size.value == -1 || 0 < size.value <= maxChunkSize
  {
    if maxChunkSize < SizeFor(0) then Some(-1)
    else
      var items := SafeItemsSize(s, p + 4, maxChunkSize);
      if items == None || items.value == -1 then items
      else
        ChunkHoldsItemsExactly(items.value);
        if SizeFor(items.value) > maxChunkSize then Some(-1) else Some(SizeFor(items.value))
  }

  /** Whether the chunks from number i on, after `size` bytes, fill the packet. */
  function ValidFrom(s: seq<byte>, chunksSize: int, i: nat, size: int): (valid: Option<bool>)
    decreases chunksSize - size
  {
    if size >= chunksSize then Some(size == chunksSize)
    else if chunksSize < size + SizeFor(0) then Some(false)
    else
      var p := GetChunk(s, 4, i);
      if p == None then None
      else
        var n := SafelyCountChunkSize(s, p.value, chunksSize - size);
        if n == None then None
        else if n.value < 0 then Some(false)
        else ValidFrom(s, chunksSize, i + 1, size + n.value)
  }

  /** The size of a packet's chunks by its header. */
  function ChunksSizeOf(s: seq<byte>): (size: int)
    requires |s| >= 4
  {
    (1 + U16(s, 2)) * 4 - 4
  }

  function IsValid(s: seq<byte>): (valid: Option<bool>)
    requires |s| >= 4
  {
    if ChunksSizeOf(s) == 0 then Some(true) else ValidFrom(s, ChunksSizeOf(s), 0, 0)
  }

  /** The number of chunks from number i on, after `size` bytes. */
  function CountFrom(s: seq<byte>, chunksSize: int, i: nat, size: int): (count: Option<nat>)
    decreases chunksSize - size
  {
    if size >= chunksSize then Some(i)
    else
      var p := GetChunk(s, 4, i);
      if p == None then None
      else
        var n := GetSize(s, p.value);
        if n == None then None else CountFrom(s, chunksSize, i + 1, size + n.value)
  }

  /** The size is kept in 16 bits. */
  function ChunksCount(s: seq<byte>): (count: Option<nat>)
    requires |s| >= 4
  {
    var valid := IsValid(s);
    if valid == None then None
    else if !valid.value then Some(0)
    else CountFrom(s, ChunksSizeOf(s) % TWO_TO_THE_16, 0, 0)
  }

  /** The sizes of the first chunks, one after the other. */
  function SizeOfFirst(s: seq<byte>, count: nat): (size: Option<int>)
    ensures size.Some? ==> 0 <= size.value
  {
    if count == 0 then Some(0)
    else
      var before, p := SizeOfFirst(s, count - 1), GetChunk(s, 4, count - 1);
      if before == None || p == None then None
      else
        var n := GetSize(s, p.value);
        if n == None then None else Some(before.value + n.value)
  }

  /** Version 2, no padding, the count modulo 32, source description, and the length in words less one. */
  function HeaderFor(chunkCount: byte, size: nat): (h: seq<byte>)
    ensures |h| == 4
  {
    [128 + chunkCount % 32, 202] + Octets16(((4 + size) / 4 - 1) % TWO_TO_THE_16)
  }

  /** The packet with its header written. */
  function Prepared(s: seq<byte>, chunkCount: byte): (t: Option<seq<byte>>)
    requires |s| >= 4
    ensures t.Some? ==> |t.value| == |s|
  {
    var size := SizeOfFirst(s, chunkCount);
    if size == None then None else Some(HeaderFor(chunkCount, size.value) + s[4..])
  }

  lemma {:induction false} OffsetNext(chunks: seq<Chunk>, num: nat)
    requires AreChunks(chunks) && num < |chunks|
    ensures ChunkOffset(chunks, num + 1) == ChunkOffset(chunks, num) + |EncodeChunk(chunks[num])|
    decreases num
  {
    hide EncodeChunk;
    if num > 0 {
      OffsetNext(chunks[1..], num - 1);
    }
  }

  lemma FirstChunk(chunks: seq<Chunk>)
    requires AreChunks(chunks) && chunks != []
    ensures IsChunk(chunks[0]) && AreChunks(chunks[1..])
    ensures EncodeChunks(chunks) == EncodeChunk(chunks[0]) + EncodeChunks(chunks[1..])
    ensures ChunkOffset(chunks, |chunks|) == |EncodeChunk(chunks[0])| + ChunkOffset(chunks[1..], |chunks| - 1)
  {
    hide EncodeChunk, IsChunk;
  }

  lemma NoChunks()
    ensures EncodeChunks([]) == [] && ChunkOffset([], 0) == 0
  {}

  lemma {:induction false} OffsetOfAll(chunks: seq<Chunk>)
    requires AreChunks(chunks)
    ensures ChunkOffset(chunks, |chunks|) == |EncodeChunks(chunks)|
    ensures |EncodeChunks(chunks)| % 4 == 0
  {
    hide *;
    if chunks != [] {
      FirstChunk(chunks);
      OffsetOfAll(chunks[1..]);
      SizeOfChunk(chunks[0]);
    } else {
      NoChunks();
    }
  }

  lemma SizeOfChunk(c: Chunk)
    requires IsChunk(c)
    ensures 8 <= |EncodeChunk(c)| <= 1024 && |EncodeChunk(c)| % 4 == 0
    ensures 4 + ItemsSize(LengthsOf(c.items)) < |EncodeChunk(c)|
  {
    ChunkHoldsItemsExactly(|EncodeItems(c.items)|);
  }

  lemma {:induction false} OffsetWithin(chunks: seq<Chunk>, i: nat, j: nat)
    requires AreChunks(chunks) && i <= j <= |chunks|
    ensures ChunkOffset(chunks, i) + 8 * (j - i) <= ChunkOffset(chunks, j)
    decreases j
  {
    hide EncodeChunk, ChunkOffset;
    if i < j {
      OffsetWithin(chunks, i, j - 1);
      OffsetNext(chunks, j - 1);
      SizeOfChunk(chunks[j - 1]);
    }
  }

  /** Well-formed items are counted, when the chunk is large enough for all of them. */
  lemma {:induction false} ItemsCounted(s: seq<byte>, p: nat, items: seq<Item>, nulls: nat, maxChunkSize: int)
    requires Fits(items) && nulls > 0
    requires Stands(s, p, EncodeItems(items) + Nulls(nulls))
    requires 4 + ItemsSize(LengthsOf(items)) < maxChunkSize && 8 <= maxChunkSize
    ensures SafeItemsSize(s, p, maxChunkSize) == Some(ItemsSize(LengthsOf(items)))
    decreases |items|
  {
    hide EncodeItem, Stands;
    if items == [] {
      assert EncodeItems(items) + Nulls(nulls) == Nulls(nulls);
      StandsAt(s, p, Nulls(nulls), 0);
    } else {
      ItemsSplit(s, p, items, nulls);
      hide EncodeItems, Fits, Nulls;
      var rest := items[1..];
      LengthsNonnegative(rest);
      assert LengthsOf(items)[1..] == LengthsOf(rest);
      ItemsCounted(s, p + 2 + |items[0].text|, rest, nulls, maxChunkSize);
    }
  }

  lemma {:induction false} LengthsNonnegative(items: seq<Item>)
    ensures 0 <= ItemsSize(LengthsOf(items))
  {
    if items != [] {
      LengthsNonnegative(items[1..]);
      assert LengthsOf(items)[1..] == LengthsOf(items[1..]);
    }
  }

  lemma ChunkCounted(s: seq<byte>, p: nat, c: Chunk, maxChunkSize: int)
    requires IsChunk(c) && Stands(s, p, EncodeChunk(c)) && |EncodeChunk(c)| <= maxChunkSize
    ensures SafelyCountChunkSize(s, p, maxChunkSize) == Some(|EncodeChunk(c)|)
  {
    hide EncodeItems, EncodeItem, Fits, Stands, ItemsSize, LengthsOf, U32, Nulls, SafeItemsSize;
    SizeOfChunk(c);
    ChunkSplit(s, p, c);
    var size := ItemsSize(LengthsOf(c.items));
    ItemsCounted(s, p + 4, c.items, SizeFor(size) - 4 - size, maxChunkSize);
  }

  lemma {:induction false} ValidFromChunk(s: seq<byte>, chunks: seq<Chunk>, i: nat)
    requires AreChunks(chunks) && Stands(s, 4, EncodeChunks(chunks)) && i <= |chunks|
    ensures ValidFrom(s, |EncodeChunks(chunks)|, i, ChunkOffset(chunks, i)) == Some(true)
    decreases |chunks| - i
  {
    hide EncodeChunk, EncodeChunks, GetSize, Stands, SafelyCountChunkSize, ChunkOffset, GetChunk;
    OffsetOfAll(chunks);
    if i < |chunks| {
      OffsetNext(chunks, i);
      OffsetWithin(chunks, i + 1, |chunks|);
      SizeOfChunk(chunks[i]);
      ChunksFound(s, 4, chunks, i);
      ChunkCounted(s, 4 + ChunkOffset(chunks, i), chunks[i], |EncodeChunks(chunks)| - ChunkOffset(chunks, i));
      ValidFromChunk(s, chunks, i + 1);
    }
  }

  /** Walking until `size` bytes are passed: all chunks, or fewer when the size is too small. */
  lemma {:induction false} CountFromChunk(s: seq<byte>, chunks: seq<Chunk>, chunksSize: int, i: nat)
    requires AreChunks(chunks) && Stands(s, 4, EncodeChunks(chunks)) && i <= |chunks|
    requires chunksSize <= |EncodeChunks(chunks)|
    ensures var count := CountFrom(s, chunksSize, i, ChunkOffset(chunks, i));
            && count.Some? && i <= count.value <= |chunks|
            && (chunksSize == |EncodeChunks(chunks)| ==> count.value == |chunks|)
            && (count.value == |chunks| && i < |chunks| ==> ChunkOffset(chunks, |chunks| - 1) < chunksSize)
    decreases |chunks| - i
  {
    hide EncodeChunk, EncodeChunks, GetSize, Stands, ChunkOffset, GetChunk;
    OffsetOfAll(chunks);
    if i < |chunks| {
      OffsetNext(chunks, i);
      OffsetWithin(chunks, i + 1, |chunks|);
      OffsetWithin(chunks, i, |chunks| - 1);
      SizeOfChunk(chunks[i]);
      ChunksFound(s, 4, chunks, i);
      ChunkFound(s, 4 + ChunkOffset(chunks, i), chunks[i], 0);
      CountFromChunk(s, chunks, chunksSize, i + 1);
    }
  }

  lemma SizeOfMore(s: seq<byte>, i: nat)
    ensures SizeOfFirst(s, i + 1) ==
            var before, p := SizeOfFirst(s, i), GetChunk(s, 4, i);
            if before == None || p == None || GetSize(s, p.value) == None then None
            else Some(before.value + GetSize(s, p.value).value)
  {}

  lemma NoSizes(s: seq<byte>)
    ensures SizeOfFirst(s, 0) == Some(0)
  {}

  lemma {:induction false} FirstSized(s: seq<byte>, chunks: seq<Chunk>, count: nat)
    requires AreChunks(chunks) && Stands(s, 4, EncodeChunks(chunks)) && count <= |chunks|
    ensures SizeOfFirst(s, count) == Some(ChunkOffset(chunks, count))
  {
    hide *;
    if count == 0 {
      OffsetNone(chunks);
      NoSizes(s);
    } else {
      FirstSized(s, chunks, count - 1);
      OneOfChunks(chunks, count - 1);
      OffsetNext(chunks, count - 1);
      ChunksFound(s, 4, chunks, count - 1);
      ChunkFound(s, 4 + ChunkOffset(chunks, count - 1), chunks[count - 1], 0);
      SizeOfMore(s, count - 1);
    }
  }

  lemma OffsetNone(chunks: seq<Chunk>)
    requires AreChunks(chunks)
    ensures ChunkOffset(chunks, 0) == 0
  {}

  lemma StandsBehindHeader(h: seq<byte>, s: seq<byte>, body: seq<byte>)
    requires |h| == 4 <= |s| && Stands(s, 4, body)
    ensures Stands(h + s[4..], 4, body)
  {
    assert (h + s[4..])[4..4 + |body|] == s[4..4 + |body|];
  }

  lemma HeaderSays(chunkCount: byte, size: nat, s: seq<byte>)
    requires size % 4 == 0 && size / 4 < TWO_TO_THE_16
    ensures var t := HeaderFor(chunkCount, size) + s;
            ChunksSizeOf(t) == size && t[0] == 128 + chunkCount % 32 && t[1] == 202
  {
    var length := Octets16(((4 + size) / 4 - 1) % TWO_TO_THE_16);
    var t := HeaderFor(chunkCount, size) + s;
    assert t[2] == length[0] && t[3] == length[1];
    assert U16(t, 2) == U16(length, 0);
  }

  /** Writing the header leaves the chunks where they stand. */
  lemma HeaderWritten(s: seq<byte>, chunks: seq<Chunk>)
    requires |s| >= 4 && AreChunks(chunks) && Stands(s, 4, EncodeChunks(chunks)) && |chunks| <= 255
    requires |EncodeChunks(chunks)| / 4 < TWO_TO_THE_16
    ensures var t := Prepared(s, |chunks|);
            && t.Some?
            && Stands(t.value, 4, EncodeChunks(chunks))
            && ChunksSizeOf(t.value) == |EncodeChunks(chunks)|
            && t.value[0] == 128 + |chunks| % 32 && t.value[1] == 202
  {
    hide EncodeChunks, AreChunks, ChunkOffset, Stands, HeaderFor, ChunksSizeOf, SizeOfFirst;
    FirstSized(s, chunks, |chunks|);
    OffsetOfAll(chunks);
    var size := |EncodeChunks(chunks)|;
    StandsBehindHeader(HeaderFor(|chunks|, size), s, EncodeChunks(chunks));
    HeaderSays(|chunks|, size, s[4..]);
  }

  /** A packet whose length is that of its chunks. */
  ghost predicate HoldsChunks(t: seq<byte>, chunks: seq<Chunk>)
  {
    && |t| >= 4 && AreChunks(chunks) && Stands(t, 4, EncodeChunks(chunks))
    && ChunksSizeOf(t) == |EncodeChunks(chunks)|
  }

  lemma HeldIsValid(t: seq<byte>, chunks: seq<Chunk>)
    requires HoldsChunks(t, chunks)
    ensures IsValid(t) == Some(true)
  {
    hide EncodeChunks, AreChunks, Stands, ChunksSizeOf, ValidFrom;
    OffsetNone(chunks);
    ValidFromChunk(t, chunks, 0);
  }

  /** The chunk stands at p, and the walk finds its item with the number where it stands. */
  ghost predicate ChunkAt(t: seq<byte>, p: nat, c: Chunk, j: nat)
  {
    && IsChunk(c) && Stands(t, p, EncodeChunk(c)) && j < |c.items|
    && GetItem(t, p + 4, j) == Some(p + 4 + ItemOffset(c.items, j))
    && Stands(t, p + 4 + ItemOffset(c.items, j), EncodeItem(c.items[j]))
  }

  lemma ChunkIsAt(t: seq<byte>, p: nat, c: Chunk, j: nat)
    requires IsChunk(c) && Stands(t, p, EncodeChunk(c)) && j < |c.items|
    ensures ChunkAt(t, p, c, j)
  {
    ChunkFound(t, p, c, j);
    hide Stands, EncodeChunk, EncodeItem, GetItem, ItemOffset;
  }

  /** Every chunk and every item is where the walk looks for it. */
  lemma HeldIsFound(t: seq<byte>, chunks: seq<Chunk>, i: nat, j: nat)
    requires HoldsChunks(t, chunks) && i < |chunks| && j < |chunks[i].items|
    ensures GetChunk(t, 4, i) == Some(4 + ChunkOffset(chunks, i))
    ensures ChunkAt(t, 4 + ChunkOffset(chunks, i), chunks[i], j)
  {
    hide *;
    HeldParts(t, chunks);
    OneOfChunks(chunks, i);
    ChunksFound(t, 4, chunks, i);
    ChunkIsAt(t, 4 + ChunkOffset(chunks, i), chunks[i], j);
  }

  lemma HeldParts(t: seq<byte>, chunks: seq<Chunk>)
    requires HoldsChunks(t, chunks)
    ensures AreChunks(chunks) && Stands(t, 4, EncodeChunks(chunks))
  {}

  lemma OneOfChunks(chunks: seq<Chunk>, i: nat)
    requires AreChunks(chunks) && i < |chunks|
    ensures IsChunk(chunks[i])
  {}

  /** What the walk counts, for a size that may have lost its high bits. */
  lemma CountOfHeld(t: seq<byte>, chunks: seq<Chunk>)
    requires HoldsChunks(t, chunks)
    ensures ChunksCount(t) == CountFrom(t, |EncodeChunks(chunks)| % TWO_TO_THE_16, 0, 0)
  {
    HeldIsValid(t, chunks);
    hide EncodeChunks, AreChunks, Stands, CountFrom, IsValid;
  }

  lemma CountUpTo(t: seq<byte>, chunks: seq<Chunk>, size: nat)
    requires HoldsChunks(t, chunks) && size <= |EncodeChunks(chunks)|
    ensures size == |EncodeChunks(chunks)| ==> CountFrom(t, size, 0, 0) == Some(|chunks|)
    ensures size + 1024 < |EncodeChunks(chunks)| ==> CountFrom(t, size, 0, 0) != Some(|chunks|)
  {
    hide *;
    HeldParts(t, chunks);
    OffsetNone(chunks);
    OffsetOfAll(chunks);
    CountFromChunk(t, chunks, size, 0);
    if chunks != [] {
      SizesOfLast(chunks);
    }
  }

  /** The count of the chunks is right exactly when their size fits 16 bits. */
  lemma CountedExactly(t: seq<byte>, chunks: seq<Chunk>)
    requires HoldsChunks(t, chunks)
    ensures ChunksCount(t) == Some(|chunks|) <==> |EncodeChunks(chunks)| < TWO_TO_THE_16
  {
    hide EncodeChunks, AreChunks, Stands, CountFrom, ChunksCount, HoldsChunks;
    HeldParts(t, chunks);
    CountOfHeld(t, chunks);
    CountUpTo(t, chunks, |EncodeChunks(chunks)| % TWO_TO_THE_16);
  }

  lemma SizesOfLast(chunks: seq<Chunk>)
    requires AreChunks(chunks) && chunks != []
    ensures ChunkOffset(chunks, |chunks| - 1) >= ChunkOffset(chunks, |chunks|) - 1024
  {
    OffsetNext(chunks, |chunks| - 1);
    hide EncodeChunk, ChunkOffset;
    SizeOfChunk(chunks[|chunks| - 1]);
  }

  /**
   Chunks that stand one after the other and a prepared header make a packet that holds them; the header
   has the count modulo 32.
   */
  lemma PreparedHoldsChunks(s: seq<byte>, chunks: seq<Chunk>)
    requires |s| >= 4 && AreChunks(chunks) && Stands(s, 4, EncodeChunks(chunks)) && |chunks| <= 255
    requires |EncodeChunks(chunks)| / 4 < TWO_TO_THE_16
    ensures Prepared(s, |chunks|).Some? && HoldsChunks(Prepared(s, |chunks|).value, chunks)
    ensures Prepared(s, |chunks|).value[0] == 128 + |chunks| % 32 && Prepared(s, |chunks|).value[1] == 202
  {
    hide Prepared, EncodeChunks, AreChunks, Stands, ChunksSizeOf;
    HeaderWritten(s, chunks);
  }

  // ----- The walks as loops -----

  method FindItem(s: seq<byte>, p: nat, number: nat) returns (base: nat)
    requires GetItem(s, p, number).Some?
    ensures GetItem(s, p, number) == Some(base)
  {
    base := p;
    var num := number;
    while num > 0
      invariant GetItem(s, base, num) == GetItem(s, p, number)
    {
      var itemSize := ItemSize(s[base + 1]);
      base := base + itemSize;
      num := num - 1;
    }
  }

  method FindChunk(s: seq<byte>, number: nat) returns (base: nat)
    requires GetChunk(s, 4, number).Some?
    ensures GetChunk(s, 4, number) == Some(base)
  {
    base := 4;
    var num := number;
    while num > 0
      invariant GetChunk(s, base, num) == GetChunk(s, 4, number)
    {
      base := base + GetSize(s, base).value;
      num := num - 1;
    }
  }

  method CheckValid(s: seq<byte>) returns (valid: bool)
    requires |s| >= 4 && IsValid(s).Some?
    ensures IsValid(s) == Some(valid)
  {
    hide GetChunk, SafelyCountChunkSize;
    var chunksSize := ChunksSizeOf(s);
    if chunksSize == 0 {
      return true;
    }
    var i: nat, size := 0, 0;
    while size < chunksSize
      invariant ValidFrom(s, chunksSize, i, size) == IsValid(s)
      decreases chunksSize - size
    {
      if chunksSize < size + SizeFor(0) {
        return false;
      }
      var chunk := FindChunk(s, i);
      i := i + 1;
      var chunkSize := SafelyCountChunkSize(s, chunk, chunksSize - size).value;
      if chunkSize < 0 {
        return false;
      }
      size := size + chunkSize;
    }
    return size == chunksSize;
  }

  method CountChunks(s: seq<byte>) returns (count: nat)
    requires |s| >= 4 && ChunksCount(s).Some?
    ensures ChunksCount(s) == Some(count)
  {
    hide GetChunk, GetSize, ValidFrom;
    var valid := CheckValid(s);
    if !valid {
      return 0;
    }
    var chunksSize := ChunksSizeOf(s) % TWO_TO_THE_16;
    var size := 0;
    count := 0;
    while size < chunksSize
      invariant CountFrom(s, chunksSize, count, size) == ChunksCount(s)
      decreases chunksSize - size
    {
      var chunk := FindChunk(s, count);
      size := size + GetSize(s, chunk).value;
      count := count + 1;
    }
  }

  // ----- Writing -----

  /** The packet's header is written when its chunks are. */
  method PreparePacket(msg: array<byte>, chunkCount: byte)
    requires msg.Length >= 4 && SizeOfFirst(msg[..], chunkCount).Some?
    modifies msg
    ensures Prepared(old(msg[..]), chunkCount) == Some(msg[..])
  {
    hide GetChunk, GetSize;
    var chunkSize := 0;
    for i := 0 to chunkCount as nat
      invariant msg[..] == old(msg[..]) && SizeOfFirst(msg[..], i) == Some(chunkSize)
      invariant 0 <= chunkSize
    {
      SizedBefore(msg[..], i + 1, chunkCount);
      var chunk := FindChunk(msg[..], i);
      chunkSize := chunkSize + GetSize(msg[..], chunk).value;
    }
    WriteOctets(msg, 0, HeaderFor(chunkCount, chunkSize));
    assert msg[..] == HeaderFor(chunkCount, chunkSize) + old(msg[..])[4..];
  }

  lemma {:induction false} SizedBefore(s: seq<byte>, i: nat, count: nat)
    requires i <= count && SizeOfFirst(s, count).Some?
    ensures SizeOfFirst(s, i).Some?
    decreases count
  {
    hide GetChunk, GetSize;
    if i < count {
      SizedBefore(s, i, count - 1);
    }
  }

  /** A zeroed packet in which `done` was written behind the header. */
  predicate Written(s: seq<byte>, done: seq<byte>)
  {
    4 + |done| <= |s| && s == Nulls(4) + done + Nulls(|s| - 4 - |done|)
  }

  lemma WrittenMore(before: seq<byte>, after: seq<byte>, done: seq<byte>, octets: seq<byte>)
    requires Written(before, done) && 4 + |done| + |octets| <= |before|
    requires after == before[..4 + |done|] + octets + before[4 + |done| + |octets|..]
    ensures Written(after, done + octets)
  {
    assert before[..4 + |done|] == Nulls(4) + done;
    assert before[4 + |done| + |octets|..] == Nulls(|before| - 4 - |done| - |octets|);
  }

  /** What was written stands in the packet, with null bytes behind it. */
  lemma WrittenStands(s: seq<byte>, front: seq<byte>, last: seq<byte>)
    requires Written(s, front + last)
    ensures Stands(s, 4, front)
    ensures Stands(s, 4 + |front|, last + Nulls(|s| - 4 - |front| - |last|))
  {
    var n := |s| - 4 - |front| - |last|;
    assert s == Nulls(4) + (front + (last + Nulls(n)));
    assert s[4..4 + |front|] == front;
    assert s[4 + |front|..4 + |front| + |last| + n] == last + Nulls(n);
  }

  lemma WrittenPadded(s: seq<byte>, done: seq<byte>, n: nat)
    requires Written(s, done) && 4 + |done| + n <= |s|
    ensures Written(s, done + Nulls(n))
  {
    assert Nulls(|s| - 4 - |done|) == Nulls(n) + Nulls(|s| - 4 - |done| - n);
  }

  lemma {:induction false} OffsetOfItems(items: seq<Item>)
    requires Fits(items)
    ensures ItemOffset(items, |items|) == |EncodeItems(items)|
  {
    hide EncodeItem;
    if items != [] {
      OffsetOfItems(items[1..]);
    }
  }

  lemma SlicesBehindFirst(items: seq<Item>, j: nat)
    requires 0 < j < |items|
    ensures items[..j] != [] && items[..j][0] == items[0] && items[..j][1..] == items[1..][..j - 1]
    ensures items[..j + 1] != [] && items[..j + 1][0] == items[0] && items[..j + 1][1..] == items[1..][..j]
    ensures items[j] == items[1..][j - 1]
  {}

  lemma OneItem(items: seq<Item>)
    requires Fits(items) && items != []
    ensures Fits(items[..0]) && Fits(items[..1]) && EncodeItems(items[..1]) == EncodeItems(items[..0]) + EncodeItem(items[0])
    ensures |EncodeItems(items[..1])| <= |EncodeItems(items)|
  {
    hide EncodeItem;
    FirstItem(items);
    assert items[..1][1..] == [] && items[..0] == [];
  }

  lemma {:induction false} ItemsSnoc(items: seq<Item>, j: nat)
    requires Fits(items) && j < |items|
    ensures Fits(items[..j]) && Fits(items[..j + 1]) && |items[j].text| <= 255
    ensures EncodeItems(items[..j + 1]) == EncodeItems(items[..j]) + EncodeItem(items[j])
    ensures |EncodeItems(items[..j + 1])| <= |EncodeItems(items)|
    decreases j
  {
    hide EncodeItem, EncodeItems;
    if j == 0 {
      OneItem(items);
    } else {
      ItemsSnoc(items[1..], j - 1);
      SlicesBehindFirst(items, j);
      FirstItem(items);
      FirstItem(items[..j]);
      FirstItem(items[..j + 1]);
      hide Fits;
      ConcatAssociative(EncodeItem(items[0]), EncodeItems(items[1..][..j - 1]), EncodeItem(items[j]));
    }
  }

  lemma {:induction false} ChunksSnoc(chunks: seq<Chunk>, i: nat)
    requires AreChunks(chunks) && i < |chunks|
    ensures AreChunks(chunks[..i]) && AreChunks(chunks[..i + 1])
    ensures EncodeChunks(chunks[..i + 1]) == EncodeChunks(chunks[..i]) + EncodeChunk(chunks[i])
    ensures |EncodeChunks(chunks[..i + 1])| <= |EncodeChunks(chunks)|
    decreases i
  {
    hide EncodeChunk;
    var rest := chunks[1..];
    assert chunks[..i + 1][1..] == rest[..i] && chunks[..i + 1][0] == chunks[0];
    if i == 0 {
      assert rest[..0] == [] && chunks[..0] == [];
      assert EncodeChunk(chunks[0]) + [] == [] + EncodeChunk(chunks[0]);
    } else {
      ChunksSnoc(rest, i - 1);
      assert chunks[..i][1..] == rest[..i - 1] && chunks[..i][0] == chunks[0];
      ConcatAssociative(EncodeChunk(chunks[0]), EncodeChunks(rest[..i - 1]), EncodeChunk(rest[i - 1]));
    }
  }

  /** Octets written where a walk has ended, behind everything written so far. */
  method Append(msg: array<byte>, q: nat, octets: seq<byte>, ghost done: seq<byte>)
    requires Written(msg[..], done) && q == 4 + |done| && q + |octets| <= msg.Length
    modifies msg
    ensures Written(msg[..], done + octets)
  {
    ghost var before := msg[..];
    WriteOctets(msg, q, octets);
    WrittenMore(before, msg[..], done, octets);
  }

  /** The place of the next item is found by walking over those before it. */
  lemma NextItem(s: seq<byte>, front: seq<byte>, items: seq<Item>)
    requires Fits(items) && Written(s, front + EncodeItems(items)) && 4 + |front| + |EncodeItems(items)| < |s|
    ensures GetItem(s, 4 + |front|, |items|) == Some(4 + |front + EncodeItems(items)|)
  {
    hide EncodeItems, Fits, Stands, Written, GetItem, ItemOffset;
    WrittenStands(s, front, EncodeItems(items));
    ItemsFound(s, 4 + |front|, items, |s| - 4 - |front| - |EncodeItems(items)|, |items|);
    OffsetOfItems(items);
  }

  /** And the place of the next chunk by walking over whole chunks. */
  lemma NextChunk(s: seq<byte>, chunks: seq<Chunk>)
    requires AreChunks(chunks) && Written(s, EncodeChunks(chunks))
    ensures GetChunk(s, 4, |chunks|) == Some(4 + |EncodeChunks(chunks)|)
  {
    hide EncodeChunks, AreChunks, Stands, Written, GetChunk, ChunkOffset;
    assert EncodeChunks(chunks) + [] == EncodeChunks(chunks);
    WrittenStands(s, EncodeChunks(chunks), []);
    ChunksFound(s, 4, chunks, |chunks|);
    OffsetOfAll(chunks);
  }

  /** The items behind the source, each found by walking over those before it. */
  method WriteItems(msg: array<byte>, p: nat, items: seq<Item>, ghost front: seq<byte>)
    requires Fits(items) && p == 4 + |front|
    requires Written(msg[..], front) && 4 + |front| + |EncodeItems(items)| < msg.Length
    modifies msg
    ensures Written(msg[..], front + EncodeItems(items))
  {
    NoItems();
    hide *;
    assert front + [] == front && items[..0] == [];
    for j := 0 to |items|
      invariant Fits(items[..j])
      invariant Written(msg[..], front + EncodeItems(items[..j]))
    {
      ItemsSnoc(items, j);
      NextItem(msg[..], front, items[..j]);
      var q := FindItem(msg[..], p, j);
      ConcatAssociative(front, EncodeItems(items[..j]), EncodeItem(items[j]));
      Append(msg, q, EncodeItem(items[j]), front + EncodeItems(items[..j]));
    }
    assert items[..|items|] == items;
  }

  lemma NoItems()
    ensures Fits([]) && EncodeItems([]) == []
  {}

  /** One chunk behind those that are already there. */
  method WriteChunk(msg: array<byte>, i: nat, c: Chunk, ghost before: seq<Chunk>)
    requires AreChunks(before) && i == |before| && IsChunk(c)
    requires Written(msg[..], EncodeChunks(before))
    requires 4 + |EncodeChunks(before)| + |EncodeChunk(c)| <= msg.Length
    modifies msg
    ensures Written(msg[..], EncodeChunks(before) + EncodeChunk(c))
  {
    hide *;
    ChunkParts(c);
    NextChunk(msg[..], before);
    var p := FindChunk(msg[..], i);
    Append(msg, p, Octets32(c.ssrc), EncodeChunks(before));
    ghost var front := EncodeChunks(before) + Octets32(c.ssrc);
    WriteItems(msg, p + 4, c.items, front);
    ghost var nulls := |EncodeChunk(c)| - 4 - |EncodeItems(c.items)|;
    WrittenPadded(msg[..], front + EncodeItems(c.items), nulls);
    ChunkBehind(EncodeChunks(before), Octets32(c.ssrc), EncodeItems(c.items), Nulls(nulls));
  }

  lemma ChunkBehind(before: seq<byte>, ssrc: seq<byte>, items: seq<byte>, nulls: seq<byte>)
    ensures before + ssrc + items + nulls == before + (ssrc + items + nulls)
  {}

  lemma ChunkParts(c: Chunk)
    requires IsChunk(c)
    ensures Fits(c.items)
    ensures var nulls := |EncodeChunk(c)| - 4 - |EncodeItems(c.items)|;
            nulls > 0 && EncodeChunk(c) == Octets32(c.ssrc) + EncodeItems(c.items) + Nulls(nulls)
  {
    ChunkHoldsItemsExactly(|EncodeItems(c.items)|);
  }

  function AllLengths(chunks: seq<Chunk>): (lengths: seq<seq<int>>)
  {
    if chunks == [] then [] else [LengthsOf(chunks[0].items)] + AllLengths(chunks[1..])
  }

  lemma {:induction false} SizeOfAll(chunks: seq<Chunk>)
    requires AreChunks(chunks)
    ensures ChunksSize(AllLengths(chunks)) == |EncodeChunks(chunks)|
  {
    hide EncodeChunk, ChunkSize;
    if chunks != [] {
      SizeOfAll(chunks[1..]);
      assert AllLengths(chunks)[1..] == AllLengths(chunks[1..]);
    }
  }

  /** A packet with chunks and items written into zeroed memory of the computed size, as the SR reporter does for one. */
  method WritePacket(chunks: seq<Chunk>) returns (msg: array<byte>)
    requires AreChunks(chunks) && |chunks| <= 255 && |EncodeChunks(chunks)| / 4 < TWO_TO_THE_16
    ensures msg.Length == 4 + ChunksSize(AllLengths(chunks))
    ensures HoldsChunks(msg[..], chunks) && msg[0] == 128 + |chunks| % 32 && msg[1] == 202
  {
    SizeOfAll(chunks);
    hide EncodeChunks, AreChunks, Stands, HoldsChunks, Written, EncodeChunk, ChunksSize, AllLengths;
    msg := new byte[4 + ChunksSize(AllLengths(chunks))](_ => 0);
    NothingWritten(msg[..], chunks);
    for i := 0 to |chunks|
      invariant AreChunks(chunks[..i])
      invariant Written(msg[..], EncodeChunks(chunks[..i]))
    {
      ChunksSnoc(chunks, i);
      OneOfChunks(chunks, i);
      WriteChunk(msg, i, chunks[i], chunks[..i]);
    }
    assert chunks[..|chunks|] == chunks;
    AllStand(msg[..], chunks);
    PreparedHoldsChunks(msg[..], chunks);
    PreparePacket(msg, |chunks|);
  }

  lemma NothingWritten(s: seq<byte>, chunks: seq<Chunk>)
    requires |s| >= 4 && forall k :: 0 <= k < |s| ==> s[k] == 0
    ensures AreChunks(chunks[..0]) && EncodeChunks(chunks[..0]) == [] && Written(s, [])
  {}

  lemma AllStand(s: seq<byte>, chunks: seq<Chunk>)
    requires AreChunks(chunks) && Written(s, EncodeChunks(chunks))
    ensures Stands(s, 4, EncodeChunks(chunks))
    ensures |chunks| <= 255 ==> SizeOfFirst(s, |chunks|).Some?
  {
    hide EncodeChunks, AreChunks, Stands, Written, SizeOfFirst, ChunkOffset;
    assert EncodeChunks(chunks) + [] == EncodeChunks(chunks);
    WrittenStands(s, EncodeChunks(chunks), []);
    FirstSized(s, chunks, |chunks|);
  }
}
