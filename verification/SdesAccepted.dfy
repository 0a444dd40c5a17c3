/**
 What it means that a source description packet of any origin is accepted: its chunks, found by walking
 from one to the next, take exactly the bytes the header declares.
 */
module SdesAccepted {
  import opened Bytes
  import opened Sdes

  /** The first n chunks of the walk take exactly the declared size, and each stands behind those before it. */
  predicate Tiles(s: seq<byte>, n: nat)
    requires |s| >= 4
  {
    && SizeOfFirst(s, n) == Some(ChunksSizeOf(s))
    && forall i: nat :: i < n ==> SizeOfFirst(s, i).Some? && GetChunk(s, 4, i) == Some(4 + SizeOfFirst(s, i).value)
  }

  /** The chunk with the number has at most 1019 bytes of items, as far as the walk finds it. */
  predicate SmallChunk(s: seq<byte>, i: nat)
  {
    var p := GetChunk(s, 4, i);
    p.Some? && ItemLengths(s, p.value + 4).Some? ==> ItemsSize(ItemLengths(s, p.value + 4).value) <= 1019
  }

  lemma {:induction false} GetChunkSnoc(s: seq<byte>, p: nat, num: nat)
    ensures GetChunk(s, p, num + 1) ==
            var q := GetChunk(s, p, num);
            if q == None || GetSize(s, q.value) == None then None else Some(q.value + GetSize(s, q.value).value)
    decreases num
  {
    hide GetSize;
    if num > 0 && GetSize(s, p).Some? {
      GetChunkSnoc(s, p + GetSize(s, p).value, num - 1);
    } else if num == 0 && GetSize(s, p).Some? {
      assert GetChunk(s, p, 1) == GetChunk(s, p + GetSize(s, p).value, 0);
    }
  }

  /** A chunk stands behind the sizes of those before it. */
  lemma {:induction false} ChunkBehindSizes(s: seq<byte>, n: nat)
    requires SizeOfFirst(s, n).Some?
    ensures GetChunk(s, 4, n) == Some(4 + SizeOfFirst(s, n).value)
  {
    hide GetSize, GetChunk;
    if n > 0 {
      ChunkBehindSizes(s, n - 1);
      GetChunkSnoc(s, 4, n - 1);
    } else {
      assert GetChunk(s, 4, 0) == Some(4) by { NoChunksBefore(s); }
    }
  }

  lemma NoChunksBefore(s: seq<byte>)
    ensures GetChunk(s, 4, 0) == Some(4)
  {}

  lemma TilesExactly(s: seq<byte>, n: nat)
    requires |s| >= 4
    ensures Tiles(s, n) <==> SizeOfFirst(s, n) == Some(ChunksSizeOf(s))
  {
    hide GetChunk, GetSize, SizeOfFirst, ChunksSizeOf;
    if SizeOfFirst(s, n) == Some(ChunksSizeOf(s)) {
      forall i: nat | i < n
        ensures SizeOfFirst(s, i).Some? && GetChunk(s, 4, i) == Some(4 + SizeOfFirst(s, i).value)
      {
        SizedBefore(s, i, n);
        ChunkBehindSizes(s, i);
      }
    }
  }

  // ----- Octet by octet -----

  /** The prepared header (RFC 3550 section 6.5): version 2, no padding, the count, type 202, the length in words less one. */
  lemma PreparedOctets(s: seq<byte>, chunkCount: byte)
    requires |s| >= 4 && Prepared(s, chunkCount).Some?
    requires SizeOfFirst(s, chunkCount).value % 4 == 0 && SizeOfFirst(s, chunkCount).value < 4 * TWO_TO_THE_16
    ensures var t := Prepared(s, chunkCount).value;
            && t[0] / 64 == 2 && t[0] / 32 % 2 == 0 && t[0] % 32 == chunkCount % 32 && t[1] == 202
            && 4 * (256 * (t[2] as int) + t[3] as int + 1) == 4 + SizeOfFirst(s, chunkCount).value
            && t[4..] == s[4..]
  {
    var size := SizeOfFirst(s, chunkCount).value;
    var h := HeaderFor(chunkCount, size);
    assert Prepared(s, chunkCount).value == h + s[4..];
    hide SizeOfFirst, HeaderFor, Prepared;
    HeaderOctets(chunkCount, size);
    var t := h + s[4..];
    assert t[0] == h[0] && t[1] == h[1] && t[2] == h[2] && t[3] == h[3] && t[4..] == s[4..];
  }

  lemma HeaderOctets(chunkCount: byte, size: nat)
    requires size % 4 == 0 && size < 4 * TWO_TO_THE_16
    ensures var h := HeaderFor(chunkCount, size);
            && h[0] / 64 == 2 && h[0] / 32 % 2 == 0 && h[0] % 32 == chunkCount % 32 && h[1] == 202
            && 4 * (256 * (h[2] as int) + h[3] as int + 1) == 4 + size
  {
    var words := size / 4;
    assert ((4 + size) / 4 - 1) % TWO_TO_THE_16 == words;
    assert Octets16(words)[0] == words / 256 && Octets16(words)[1] == words % 256;
  }

  /** An item is its type, the length of its text, and the text. */
  lemma ItemLayout(item: Item)
    requires |item.text| <= 255
    ensures var s := EncodeItem(item); s[0] == item.itemType && s[1] == |item.text| && s[2..] == item.text
  {}

  /** A chunk is its source, its items, and one to four null bytes up to a multiple of four. */
  lemma ChunkLayout(c: Chunk, k: nat)
    requires IsChunk(c)
    ensures var s, items := EncodeChunk(c), EncodeItems(c.items);
            && (((s[0] as int) * 256 + s[1] as int) * 256 + s[2] as int) * 256 + s[3] as int == c.ssrc
            && |s| % 4 == 0 && 1 <= |s| - 4 - |items| <= 4
            && s[4..4 + |items|] == items
            && (4 + |items| <= k < |s| ==> s[k] == 0)
  {
    var items, ssrc := EncodeItems(c.items), Octets32(c.ssrc);
    ChunkHoldsItemsExactly(|items|);
    assert U32(ssrc, 0) == c.ssrc;
    hide EncodeItems, SizeFor;
    var s := EncodeChunk(c);
    assert s[0] == ssrc[0] && s[1] == ssrc[1] && s[2] == ssrc[2] && s[3] == ssrc[3];
    var nulls := SizeFor(|items|) - 4 - |items|;
    assert s == ssrc + items + Nulls(nulls);
  }

  // ----- The cautious size of a chunk -----

  lemma {:induction false} SafeItemsAreItems(s: seq<byte>, q: nat, maxChunkSize: int)
    requires SafeItemsSize(s, q, maxChunkSize).Some? && SafeItemsSize(s, q, maxChunkSize).value >= 0
    ensures ItemLengths(s, q).Some?
    ensures ItemsSize(ItemLengths(s, q).value) == SafeItemsSize(s, q, maxChunkSize).value
    decreases |s| - q
  {
    if s[q] != 0 {
      SafeItemsAreItems(s, q + ItemSize(s[q + 1]), maxChunkSize);
    }
  }

  lemma {:induction false} ItemsAreSafe(s: seq<byte>, q: nat, maxChunkSize: int)
    requires ItemLengths(s, q).Some? && 4 + ItemsSize(ItemLengths(s, q).value) < maxChunkSize
    ensures SafeItemsSize(s, q, maxChunkSize) == Some(ItemsSize(ItemLengths(s, q).value))
    decreases |s| - q
  {
    if s[q] != 0 {
      ItemsSizeNonnegative(ItemLengths(s, q + ItemSize(s[q + 1])).value);
      ItemsAreSafe(s, q + ItemSize(s[q + 1]), maxChunkSize);
    } else {
      assert ItemLengths(s, q) == Some([]);
    }
  }

  lemma SafeSizeIsSize(s: seq<byte>, p: nat, maxChunkSize: int)
    requires SafelyCountChunkSize(s, p, maxChunkSize).Some? && SafelyCountChunkSize(s, p, maxChunkSize).value >= 0
    ensures GetSize(s, p) == SafelyCountChunkSize(s, p, maxChunkSize)
  {
    SafeItemsAreItems(s, p + 4, maxChunkSize);
    hide SafeItemsSize, ItemLengths;
  }

  lemma SizeIsSafe(s: seq<byte>, p: nat, maxChunkSize: int)
    requires GetSize(s, p).Some? && GetSize(s, p).value <= maxChunkSize
    requires ItemsSize(ItemLengths(s, p + 4).value) <= 1019
    ensures SafelyCountChunkSize(s, p, maxChunkSize) == GetSize(s, p) && maxChunkSize >= SizeFor(0)
  {
    var itemsSize := ItemsSize(ItemLengths(s, p + 4).value);
    ItemsSizeNonnegative(ItemLengths(s, p + 4).value);
    ChunkHoldsItemsExactly(itemsSize);
    ItemsAreSafe(s, p + 4, maxChunkSize);
  }

  // ----- Acceptance -----

  lemma {:induction false} ValidTiles(s: seq<byte>, chunksSize: int, i: nat) returns (n: nat)
    requires SizeOfFirst(s, i).Some?
    requires ValidFrom(s, chunksSize, i, SizeOfFirst(s, i).value) == Some(true)
    ensures SizeOfFirst(s, n) == Some(chunksSize)
    decreases chunksSize - SizeOfFirst(s, i).value
  {
    hide GetChunk, GetSize, SizeOfFirst, SafelyCountChunkSize;
    var size := SizeOfFirst(s, i).value;
    if size >= chunksSize {
      n := i;
    } else {
      SafeSizeIsSize(s, GetChunk(s, 4, i).value, chunksSize - size);
      SizeOfMore(s, i);
      n := ValidTiles(s, chunksSize, i + 1);
    }
  }

  lemma {:induction false} SizesGrow(s: seq<byte>, i: nat, n: nat)
    requires i <= n && SizeOfFirst(s, n).Some?
    ensures SizeOfFirst(s, i).Some? && SizeOfFirst(s, i).value <= SizeOfFirst(s, n).value
    ensures i < n ==> SizeOfFirst(s, i).value < SizeOfFirst(s, n).value
    decreases n
  {
    hide GetChunk, GetSize, SizeOfFirst;
    if i < n {
      SizeOfMore(s, n - 1);
      SizesGrow(s, i, n - 1);
      GetSizePositive(s, GetChunk(s, 4, n - 1).value);
    }
  }

  lemma GetSizePositive(s: seq<byte>, p: nat)
    ensures GetSize(s, p).Some? ==> GetSize(s, p).value > 0
  {}

  lemma {:induction false} TilesAreValid(s: seq<byte>, i: nat, n: nat)
    requires i <= n && SizeOfFirst(s, n).Some? && SizeOfFirst(s, i).Some?
    requires forall k: nat :: k < n ==> SmallChunk(s, k)
    ensures ValidFrom(s, SizeOfFirst(s, n).value, i, SizeOfFirst(s, i).value) == Some(true)
    decreases n - i
  {
    hide GetChunk, GetSize, SizeOfFirst, SafelyCountChunkSize, SmallChunk;
    SizesGrow(s, i, n);
    if i < n {
      var chunksSize, size := SizeOfFirst(s, n).value, SizeOfFirst(s, i).value;
      SizesGrow(s, i + 1, n);
      SizeOfMore(s, i);
      SmallSized(s, i);
      SizeIsSafe(s, GetChunk(s, 4, i).value, chunksSize - size);
      GetSizePositive(s, GetChunk(s, 4, i).value);
      TilesAreValid(s, i + 1, n);
    }
  }

  lemma SmallSized(s: seq<byte>, i: nat)
    requires SmallChunk(s, i) && GetChunk(s, 4, i).Some? && GetSize(s, GetChunk(s, 4, i).value).Some?
    ensures ItemLengths(s, GetChunk(s, 4, i).value + 4).Some?
    ensures ItemsSize(ItemLengths(s, GetChunk(s, 4, i).value + 4).value) <= 1019
  {}

  /** Whatever the bytes: an accepted packet is tiled by its chunks. */
  lemma AcceptedIsTiled(s: seq<byte>) returns (n: nat)
    requires |s| >= 4 && IsValid(s) == Some(true)
    ensures Tiles(s, n)
  {
    hide GetChunk, GetSize, ValidFrom;
    if ChunksSizeOf(s) == 0 {
      n := 0;
    } else {
      hide SizeOfFirst;
      assert SizeOfFirst(s, 0) == Some(0) by { NoSizes(s); }
      n := ValidTiles(s, ChunksSizeOf(s), 0);
    }
    TilesExactly(s, n);
  }

  /**
   When none of the chunks that tile it has more than 1019 bytes of items, a packet is accepted exactly
   when it is tiled.
   */
  lemma AcceptedExactly(s: seq<byte>)
    requires |s| >= 4 && forall k: nat, n: nat :: Tiles(s, n) && k < n ==> SmallChunk(s, k)
    ensures IsValid(s) == Some(true) <==> exists n: nat :: Tiles(s, n)
  {
    if IsValid(s) == Some(true) {
      var n := AcceptedIsTiled(s);
    }
    if n: nat :| Tiles(s, n) {
      hide GetChunk, GetSize, ValidFrom, SizeOfFirst, SmallChunk;
      NoSizes(s);
      TilesAreValid(s, 0, n);
    }
  }

  lemma {:induction false} CountsTiles(s: seq<byte>, i: nat, n: nat)
    requires i <= n && SizeOfFirst(s, n).Some? && SizeOfFirst(s, i).Some?
    ensures CountFrom(s, SizeOfFirst(s, n).value, i, SizeOfFirst(s, i).value) == Some(n)
    decreases n - i
  {
    hide GetChunk, GetSize, SizeOfFirst;
    SizesGrow(s, i, n);
    if i < n {
      SizesGrow(s, i + 1, n);
      SizeOfMore(s, i);
      GetSizePositive(s, GetChunk(s, 4, i).value);
      CountsTiles(s, i + 1, n);
    }
  }

  /** The count of an accepted packet with less than 2^16 bytes of chunks is that of the chunks that tile it. */
  lemma AcceptedIsCounted(s: seq<byte>, n: nat)
    requires |s| >= 4 && IsValid(s) == Some(true) && ChunksSizeOf(s) < TWO_TO_THE_16
    requires Tiles(s, n)
    ensures ChunksCount(s) == Some(n)
  {
    hide GetChunk, GetSize, IsValid, SizeOfFirst, CountFrom;
    assert 0 <= ChunksSizeOf(s);
    NoSizes(s);
    CountsTiles(s, 0, n);
  }

  /** The items of a chunk, with a null byte behind them, stay inside it exactly when they take at most 1019 bytes. */
  lemma ItemsInsideExactly(s: seq<byte>, i: nat)
    requires GetChunk(s, 4, i).Some? && ItemLengths(s, GetChunk(s, 4, i).value + 4).Some?
    ensures var p := GetChunk(s, 4, i).value;
            SmallChunk(s, i) <==>
            GetSize(s, p).Some? && 4 + ItemsSize(ItemLengths(s, p + 4).value) + 1 <= GetSize(s, p).value
  {
    var lengths := ItemLengths(s, GetChunk(s, 4, i).value + 4).value;
    ItemsSizeNonnegative(lengths);
    ChunkHoldsItemsExactly(ItemsSize(lengths));
  }
}
