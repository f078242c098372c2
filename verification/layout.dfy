/**
  The byte image GetBytes12_4_4 emits for the 12:4:4 tables and the lookup a
  consumer performs on it.

  The three byte arrays are laid out one after the other. The level-1 and
  level-2 arrays hold 16-bit words written little-endian, the level-3 array
  holds each value as the callback encodes it. Level-1 and level-2 entries
  are relocated from logical ids into word offsets from the start of the
  whole image, so that a reader can follow them without knowing where each
  array begins.
*/
module Layout {
  import opened Wrappers
  import opened Store
  import opened TableBuild

  type byte = b: int | 0 <= b < 0x100

  /** Number of values a 16-bit unsigned cast can hold. */
  const WordRange := 0x1_0000

  // ----- Words -----

  /** The two bytes of `(ushort)w` in little-endian order. */
  function LittleEndian16(w: nat): (b: seq<byte>)
    ensures |b| == 2 && b[0] as int + 256 * (b[1] as int) == w % WordRange
  {
    var high := w / 256;
    assert w == 256 * high + w % 256;
    assert high == 256 * (high / 256) + high % 256;
    assert w == WordRange * (high / 256) + (256 * (high % 256) + w % 256);
    [w % 256, high % 256]
  }

  /** Each entry of `ws` as a 16-bit word, low byte first, in order. */
  function Words(ws: seq<nat>): (r: seq<byte>)
    ensures |r| == 2 * |ws|
  {
    if ws == [] then [] else Words(ws[..|ws| - 1]) + LittleEndian16(ws[|ws| - 1])
  }

  /** Encoding one more word of `ws` appends its two bytes. */
  lemma WordsPrefixStep(ws: seq<nat>, i: nat)
    requires i < |ws|
    ensures Words(ws[..i + 1]) == Words(ws[..i]) + LittleEndian16(ws[i])
  {
    assert ws[..i + 1][..i] == ws[..i];
  }

  /** The 16-bit little-endian word that starts at byte `2 * w` of `image`. */
  function WordAt(image: seq<byte>, w: nat): nat
    requires 2 * w + 2 <= |image|
  {
    image[2 * w] as int + 256 * (image[2 * w + 1] as int)
  }

  /** Reading word `i` of an emitted word array gives back entry `i` modulo 2^16. */
  lemma {:induction false} WordsRoundTrip(ws: seq<nat>, rest: seq<byte>, i: nat)
    requires i < |ws|
    ensures 2 * i + 2 <= |Words(ws) + rest|
    ensures WordAt(Words(ws) + rest, i) == ws[i] % WordRange
    decreases |ws|
  {
    var init, last := ws[..|ws| - 1], ws[|ws| - 1];
    assert Words(ws) == Words(init) + LittleEndian16(last);
    if i == |ws| - 1 {
      assert (Words(ws) + rest)[2 * i] == LittleEndian16(last)[0];
      assert (Words(ws) + rest)[2 * i + 1] == LittleEndian16(last)[1];
    } else {
      assert Words(ws) + rest == Words(init) + (LittleEndian16(last) + rest);
      WordsRoundTrip(init, LittleEndian16(last) + rest, i);
      assert init[i] == ws[i];
    }
  }

  /** A word array placed after an even-length prefix is read at word `|prefix| / 2 + i`. */
  lemma WordAfterPrefix(prefix: seq<byte>, image: seq<byte>, i: nat)
    requires |prefix| % 2 == 0 && 2 * i + 2 <= |image|
    ensures 2 * (|prefix| / 2 + i) + 2 <= |prefix + image|
    ensures WordAt(prefix + image, |prefix| / 2 + i) == WordAt(image, i)
  {
    assert (prefix + image)[|prefix| + 2 * i] == image[2 * i];
    assert (prefix + image)[|prefix| + 2 * i + 1] == image[2 * i + 1];
  }

  // ----- Relocated entries -----

  /**
    Level-1 words: group number `g` becomes the word offset of that group in
    the level-2 array, which starts right after the `|level1|` level-1 words.
  */
  function Level1Words(level1: seq<nat>): (ws: seq<nat>)
    ensures |ws| == |level1|
  {
    seq(|level1|, i requires 0 <= i < |level1| => level1[i] * GroupLength + |level1|)
  }

  /**
    Level-2 words: the element offset of a row in the level-3 array becomes a
    word offset, scaled by the value width in bytes over 2, counted from the
    start of the level-3 array, which follows the level-1 and level-2 words.
  */
  function Level2Words(level1Count: nat, level2: seq<nat>, valueByteSize: nat): (ws: seq<nat>)
    ensures |ws| == |level2|
  {
    seq(|level2|, i requires 0 <= i < |level2| => level2[i] * valueByteSize / 2 + level1Count + |level2|)
  }

  /** No relocated entry exceeds a 16-bit word, so the unchecked casts keep every value. */
  predicate NoWrap(ws: seq<nat>)
  {
    forall i | 0 <= i < |ws| :: ws[i] < WordRange
  }

  // ----- Values -----

  /** The callback's encoding of each value, concatenated in order. */
  function ValueBytes(encode: string -> seq<byte>, values: seq<string>): seq<byte>
  {
    if values == [] then [] else ValueBytes(encode, values[..|values| - 1]) + encode(values[|values| - 1])
  }

  /** Encoding a sequence with one more value at its end appends that value's bytes. */
  lemma ValueBytesAppend(encode: string -> seq<byte>, values: seq<string>, v: string)
    ensures ValueBytes(encode, values + [v]) == ValueBytes(encode, values) + encode(v)
  {
    assert (values + [v])[..|values|] == values;
  }

  /** Every value the callback encodes takes `width` bytes. */
  ghost predicate FixedWidth(encode: string -> seq<byte>, width: nat)
  {
    forall v :: |encode(v)| == width
  }

  lemma MulBound(e: nat, count: nat, width: nat)
    requires e < count
    ensures width * e + width <= width * count
  {
    assert width * e + width == width * (e + 1);
  }

  /**
    With a fixed-width encoding, value `e` occupies bytes `width * e` up to
    `width * (e + 1)` of the level-3 array.
  */
  lemma {:induction false} ValueBytesFixedWidth(encode: string -> seq<byte>, values: seq<string>, width: nat)
    requires FixedWidth(encode, width)
    ensures |ValueBytes(encode, values)| == width * |values|
    ensures forall e | 0 <= e < |values| ::
      width * e + width <= |ValueBytes(encode, values)|
      && ValueBytes(encode, values)[width * e .. width * e + width] == encode(values[e])
    decreases |values|
  {
    if values != [] {
      var init, last := values[..|values| - 1], values[|values| - 1];
      var head := ValueBytes(encode, init);
      ValueBytesFixedWidth(encode, init, width);
      var whole := ValueBytes(encode, values);
      assert whole == head + encode(last);
      assert |whole| == width * |init| + width == width * |values|;
      forall e | 0 <= e < |values|
        ensures width * e + width <= |whole| && whole[width * e .. width * e + width] == encode(values[e])
      {
        MulBound(e, |values|, width);
        if e < |init| {
          MulBound(e, |init|, width);
          SliceOfPrefix(head, encode(last), width * e, width * e + width);
          assert values[e] == init[e];
        } else {
          assert e == |init| && width * e == |head|;
          SliceOfSuffix(head, encode(last));
        }
      }
    }
  }

  // ----- The image and the reader -----

  /** The three arrays GetBytes12_4_4 returns, concatenated, followed by `padding`. */
  function Image(level1: seq<nat>, level2: seq<nat>, level3: seq<string>,
                 encode: string -> seq<byte>, valueByteSize: nat, padding: seq<byte>): seq<byte>
  {
    Words(Level1Words(level1)) + Words(Level2Words(|level1|, level2, valueByteSize))
      + (ValueBytes(encode, level3) + padding)
  }

  /** The byte length of `count` values of `width` bytes each. */
  function Scaled(count: nat, width: nat): nat
  {
    count * width
  }

  /**
    The consumer's lookup on the image: the level-1 word at `c >> 8`, plus
    `(c >> 4) & 15`, names a level-2 word; that word, counted in words, plus
    `c & 15` values of `valueByteSize` bytes, locates the value's bytes.
    None when a read falls outside the image.
  */
  function ReadEntry(image: seq<byte>, c: nat, valueByteSize: nat): Option<seq<byte>>
  {
    var w1 := c / 256;
    if 2 * w1 + 2 > |image| then None
    else
      var w2 := WordAt(image, w1) + (c / 16) % 16;
      if 2 * w2 + 2 > |image| then None
      else
        var start := 2 * WordAt(image, w2) + Scaled(c % 16, valueByteSize);
        if start + valueByteSize > |image| then None
        else Some(image[start .. start + valueByteSize])
  }

  lemma EvenScaled(offset: nat, width: nat)
    requires offset % RowLength == 0
    ensures 2 * (offset * width / 2) == offset * width
  {
    var rows := offset / RowLength;
    var y := rows * width;
    assert offset == 16 * rows;
    assert offset * width == 16 * y;
  }

  lemma ValueOffset(level1Count: nat, level2Count: nat, offset: nat, k: nat, width: nat, word: nat, e: nat)
    requires offset % RowLength == 0 && word == offset * width / 2 + level1Count + level2Count
    requires e == offset + k
    ensures 2 * word + Scaled(k, width) == 2 * level1Count + 2 * level2Count + Scaled(e, width)
  {
    EvenScaled(offset, width);
    assert Scaled(e, width) == (offset + k) * width == offset * width + Scaled(k, width);
  }

  /** The level-1 word of key `c` points at the level-2 word of its row. */
  lemma Level1Step(level1: seq<nat>, rest: seq<byte>, c: nat)
    requires c / 256 < |level1| && NoWrap(Level1Words(level1))
    ensures 2 * (c / 256) + 2 <= |Words(Level1Words(level1)) + rest|
    ensures WordAt(Words(Level1Words(level1)) + rest, c / 256) + (c / 16) % 16
         == |level1| + GroupLength * level1[c / 256] + (c / 16) % 16
  {
    var ws, i := Level1Words(level1), c / 256;
    WordsRoundTrip(ws, rest, i);
    assert ws[i] == level1[i] * GroupLength + |level1| < WordRange;
    assert ws[i] % WordRange == ws[i];
  }

  /** Entry `q` of a word array that follows an even-length prefix, read from the image. */
  lemma Level2Step(prefix: seq<byte>, ws: seq<nat>, rest: seq<byte>, q: nat)
    requires |prefix| % 2 == 0 && q < |ws|
    ensures 2 * (|prefix| / 2 + q) + 2 <= |prefix + Words(ws) + rest|
    ensures WordAt(prefix + Words(ws) + rest, |prefix| / 2 + q) == ws[q] % WordRange
  {
    WordsRoundTrip(ws, rest, q);
    assert prefix + Words(ws) + rest == prefix + (Words(ws) + rest);
    WordAfterPrefix(prefix, Words(ws) + rest, q);
  }

  /** A slice of the first part of a concatenation. */
  lemma SliceOfPrefix<T>(a: seq<T>, b: seq<T>, i: nat, j: nat)
    requires i <= j <= |a|
    ensures (a + b)[i..j] == a[i..j]
  {
  }

  /** The second part of a concatenation, as a slice. */
  lemma SliceOfSuffix<T>(a: seq<T>, b: seq<T>)
    ensures (a + b)[|a| .. |a| + |b|] == b
  {
  }

  /** A slice of the middle part of a concatenation. */
  lemma SliceInMiddle(prefix: seq<byte>, mid: seq<byte>, suffix: seq<byte>, i: nat, j: nat)
    requires i <= j <= |mid|
    ensures (prefix + (mid + suffix))[|prefix| + i .. |prefix| + j] == mid[i..j]
  {
    var whole := prefix + (mid + suffix);
    forall x | 0 <= x < j - i
      ensures whole[|prefix| + i .. |prefix| + j][x] == mid[i..j][x]
    {
      assert whole[|prefix| + i + x] == mid[i + x];
    }
  }

  /** Value `e` sits `e` values of `width` bytes into the level-3 array. */
  lemma Level3Step(prefix: seq<byte>, encode: string -> seq<byte>, level3: seq<string>, width: nat, padding: seq<byte>, e: nat)
    requires FixedWidth(encode, width) && e < |level3|
    ensures |prefix| + Scaled(e, width) + width <= |prefix + (ValueBytes(encode, level3) + padding)|
    ensures (prefix + (ValueBytes(encode, level3) + padding))[|prefix| + Scaled(e, width) .. |prefix| + Scaled(e, width) + width]
         == encode(level3[e])
  {
    ValueSlice(encode, level3, width, e);
    SliceInMiddle(prefix, ValueBytes(encode, level3), padding, Scaled(e, width), Scaled(e, width) + width);
  }

  /** One instance of ValueBytesFixedWidth. */
  lemma ValueSlice(encode: string -> seq<byte>, values: seq<string>, width: nat, e: nat)
    requires FixedWidth(encode, width) && e < |values|
    ensures Scaled(e, width) + width <= |ValueBytes(encode, values)|
    ensures ValueBytes(encode, values)[Scaled(e, width) .. Scaled(e, width) + width] == encode(values[e])
  {
    ValueBytesFixedWidth(encode, values, width);
    assert Scaled(e, width) == width * e;
  }

  /**
    Following the level-1 and level-2 words of key `c` from the image leads
    to byte `Scaled(e, width)` of the level-3 array, where `e` is `level2[q] + (c & 15)`
    and `q` the level-2 entry the logical lookup uses.
  */
  lemma IndexPath(level1: seq<nat>, level2: seq<nat>, width: nat, rest: seq<byte>, c: nat, q: nat, e: nat)
    requires c / 256 < |level1| && q == GroupLength * level1[c / 256] + (c / 16) % 16 && q < |level2|
    requires level2[q] % RowLength == 0 && e == level2[q] + c % 16
    requires NoWrap(Level1Words(level1)) && NoWrap(Level2Words(|level1|, level2, width))
    ensures
      var words := Words(Level1Words(level1)) + Words(Level2Words(|level1|, level2, width));
      && 2 * (c / 256) + 2 <= |words + rest|
      && WordAt(words + rest, c / 256) + (c / 16) % 16 == |level1| + q
      && 2 * (|level1| + q) + 2 <= |words + rest|
      && 2 * WordAt(words + rest, |level1| + q) + Scaled(c % 16, width) == |words| + Scaled(e, width)
  {
    var b1, b2 := Words(Level1Words(level1)), Words(Level2Words(|level1|, level2, width));
    assert b1 + b2 + rest == b1 + (b2 + rest);
    Level1Step(level1, b2 + rest, c);
    Level2Path(b1, |level1|, level2, width, rest, q, c % 16, e);
  }

  /** The level-2 half of IndexPath: entry `q`, plus `k` values, as a byte offset. */
  lemma Level2Path(b1: seq<byte>, n1: nat, level2: seq<nat>, width: nat, rest: seq<byte>, q: nat, k: nat, e: nat)
    requires |b1| == 2 * n1 && q < |level2| && level2[q] % RowLength == 0 && e == level2[q] + k
    requires NoWrap(Level2Words(n1, level2, width))
    ensures
      var words := b1 + Words(Level2Words(n1, level2, width));
      && 2 * (n1 + q) + 2 <= |words + rest|
      && 2 * WordAt(words + rest, n1 + q) + Scaled(k, width) == |words| + Scaled(e, width)
  {
    var w2s := Level2Words(n1, level2, width);
    assert |b1| % 2 == 0 && |b1| / 2 == n1;
    Level2Step(b1, w2s, rest, q);
    var word := w2s[q];
    assert word == level2[q] * width / 2 + n1 + |level2| < WordRange;
    assert word % WordRange == word;
    ValueOffset(n1, |level2|, level2[q], k, width, word, e);
  }

  /**
    The image reproduces the logical lookup: whenever the three-step lookup
    on the logical tables finds a value, the reader finds exactly that value's
    encoding in the image, provided the encoding has a fixed width, every
    level-2 entry is a row offset, and no relocated entry wraps.
  */
  lemma ImageAgreesWithLookup(level1: seq<nat>, level2: seq<nat>, level3: seq<string>,
                              encode: string -> seq<byte>, valueByteSize: nat, padding: seq<byte>, c: nat)
    requires FixedWidth(encode, valueByteSize)
    requires forall q | 0 <= q < |level2| :: level2[q] % RowLength == 0
    requires NoWrap(Level1Words(level1)) && NoWrap(Level2Words(|level1|, level2, valueByteSize))
    requires Lookup(level1, level2, level3, c).Some?
    ensures ReadEntry(Image(level1, level2, level3, encode, valueByteSize, padding), c, valueByteSize)
         == Some(encode(Lookup(level1, level2, level3, c).value))
  {
    var q := GroupLength * level1[c / 256] + (c / 16) % 16;
    var e := level2[q] + c % 16;
    assert q < |level2| && e < |level3| && Lookup(level1, level2, level3, c).value == level3[e];
    ImageReadsEntry(level1, level2, level3, encode, valueByteSize, padding, c, q, e);
  }

  /** ImageAgreesWithLookup, for the level-2 entry `q` and level-3 entry `e` of key `c`. */
  lemma ImageReadsEntry(level1: seq<nat>, level2: seq<nat>, level3: seq<string>,
                        encode: string -> seq<byte>, valueByteSize: nat, padding: seq<byte>, c: nat, q: nat, e: nat)
    requires FixedWidth(encode, valueByteSize)
    requires c / 256 < |level1| && q == GroupLength * level1[c / 256] + (c / 16) % 16 && q < |level2|
    requires level2[q] % RowLength == 0 && e == level2[q] + c % 16 && e < |level3|
    requires NoWrap(Level1Words(level1)) && NoWrap(Level2Words(|level1|, level2, valueByteSize))
    ensures ReadEntry(Image(level1, level2, level3, encode, valueByteSize, padding), c, valueByteSize)
         == Some(encode(level3[e]))
  {
    var words := Words(Level1Words(level1)) + Words(Level2Words(|level1|, level2, valueByteSize));
    var rest := ValueBytes(encode, level3) + padding;
    IndexPath(level1, level2, valueByteSize, rest, c, q, e);
    Level3Step(words, encode, level3, valueByteSize, padding, e);
    ReadEntryFound(words + rest, c, valueByteSize, |level1| + q, |words| + Scaled(e, valueByteSize), encode(level3[e]));
  }

  /** ReadEntry, for reads that stay inside the image and find `bytes`. */
  lemma ReadEntryFound(image: seq<byte>, c: nat, width: nat, w2: nat, start: nat, bytes: seq<byte>)
    requires 2 * (c / 256) + 2 <= |image| && w2 == WordAt(image, c / 256) + (c / 16) % 16
    requires 2 * w2 + 2 <= |image| && 2 * WordAt(image, w2) + Scaled(c % 16, width) == start
    requires start + width <= |image| && image[start .. start + width] == bytes
    ensures ReadEntry(image, c, width) == Some(bytes)
  {
  }

  /**
    The emitted image of a completed build serves every key of the built
    range: reading key `c` yields the callback's encoding of the value the
    store holds for `c` (or of the default value).
  */
  lemma ImageResolves(raw: map<nat, string>, defaultValue: string, n: nat, t: Tables,
                      encode: string -> seq<byte>, valueByteSize: nat, padding: seq<byte>)
    requires Build(raw, defaultValue, n, [], [], []) == Some(t)
    requires FixedWidth(encode, valueByteSize)
    requires NoWrap(Level1Words(t.level1)) && NoWrap(Level2Words(|t.level1|, t.groups.data, valueByteSize))
    ensures forall c | 0 <= c < 256 * n ::
      ReadEntry(Image(t.level1, t.groups.data, t.rows.data, encode, valueByteSize, padding), c, valueByteSize)
        == Some(encode(ValueAt(raw, defaultValue, c)))
  {
    BuildResolves(raw, defaultValue, n, t);
    BuildDeduplicates(raw, defaultValue, n, t);
    forall c | 0 <= c < 256 * n
      ensures ReadEntry(Image(t.level1, t.groups.data, t.rows.data, encode, valueByteSize, padding), c, valueByteSize)
        == Some(encode(ValueAt(raw, defaultValue, c)))
    {
      ImageAgreesWithLookup(t.level1, t.groups.data, t.rows.data, encode, valueByteSize, padding, c);
    }
  }
}
