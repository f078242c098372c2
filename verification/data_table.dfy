/**
  The data table of the Unicode property generator: a store of codepoint
  values that is either dumped flat (table type 1) or compressed into the
  12:4:4 three-level table (table type 12) and serialized as three byte
  arrays.
*/
module DataTables {
  import opened Wrappers
  import opened Store
  import opened Interning
  import opened TableBuild
  import opened Layout

  /** The exceptions the table throws. */
  datatype TableError =
    | InvalidTableType(tableType: byte)  // the constructor's ArgumentException
    | InvalidOperation                   // GenerateTable12_4_4 on a table that is not of type 12
    | Overflow                           // a checked narrowing cast of a row or group id failed

  function Abs(x: int): nat
  {
    if x < 0 then -x else x
  }

  lemma MulSign(m: int, d: int)
    requires m > 0
    ensures d >= 1 ==> m * d >= m
    ensures d <= -1 ==> m * d <= -m
  {
    assert m * d - m == m * (d - 1);
    assert m * d + m == m * (d + 1);
  }

  /** A multiple of `m` leaves no Euclidean remainder. */
  lemma MultipleMod(m: int, k: int)
    requires m > 0
    ensures (m * k) % m == 0
  {
    var x := m * k;
    var d := k - x / m;
    assert x == m * (x / m) + x % m;
    assert m * d == x % m by { assert m * d == m * k - m * (x / m); }
    MulSign(m, d);
  }

  lemma NegatedMultiple(a: int, m: int)
    requires m > 0
    ensures a % m == 0 <==> (-a) % m == 0
  {
    if a % m == 0 {
      assert a == m * (a / m);
      MultipleMod(m, -(a / m));
    }
    if (-a) % m == 0 {
      assert -a == m * ((-a) / m);
      MultipleMod(m, -((-a) / m));
    }
  }

  /** Taking away the Euclidean remainder leaves a multiple of the divisor. */
  lemma DividendLessRemainder(a: int, m: int)
    requires m > 0
    ensures (a - a % m) % m == 0
  {
    assert a - a % m == m * (a / m);
    MultipleMod(m, a / m);
  }

  lemma AlignedPlusFour(x: int)
    requires x % 16 == 0
    ensures (x + 4) % 16 == 4
  {
  }

  /** The padding GetBytes12_4_4 appends leaves the three arrays 4 bytes past a multiple of 16. */
  lemma PaddedLength(unpadded: int, padding: seq<byte>)
    requires padding == DataTable.GetByteBoundaryBytes(16, unpadded - 4, 0xEE)
    ensures (unpadded + |padding|) % 16 == 4
  {
    AlignedPlusFour(unpadded - 4 + |padding|);
  }

  /**
    The `%` of C# on `int`: the quotient is truncated toward zero, so the
    remainder is smaller than the divisor in magnitude, has the sign of the
    dividend, and differs from it by a multiple of the divisor; it is zero
    exactly when the divisor divides the dividend.
  */
  function CsRemainder(a: int, b: int): (r: int)
    requires b != 0
    ensures Abs(r) < Abs(b)
    ensures (a - r) % Abs(b) == 0
    ensures a >= 0 ==> r >= 0
    ensures a < 0 ==> r <= 0
    ensures r == 0 <==> a % Abs(b) == 0
  {
    var m := Abs(b);
    if a >= 0 then
      DividendLessRemainder(a, m);
      a % m
    else
      DividendLessRemainder(-a, m);
      NegatedMultiple(a + (-a) % m, m);
      NegatedMultiple(a, m);
      -((-a) % m)
  }

  // ----- byte.ToString() -----

  function Digit(d: nat): char
    requires d < 10
  {
    "0123456789"[d]
  }

  /** The decimal digits of `n`, most significant first, without leading zeros. */
  function DecimalString(n: nat): (s: string)
    ensures |s| >= 1
    ensures forall i | 0 <= i < |s| :: '0' <= s[i] <= '9'
    ensures |s| > 1 ==> s[0] != '0'
  {
    if n < 10 then [Digit(n)] else DecimalString(n / 10) + [Digit(n % 10)]
  }

  /** The number a string of decimal digits denotes. */
  function DecimalValue(s: string): nat
    requires forall i | 0 <= i < |s| :: '0' <= s[i] <= '9'
  {
    if s == [] then 0 else 10 * DecimalValue(s[..|s| - 1]) + (s[|s| - 1] as int - '0' as int)
  }

  /** Reading back the decimal digits of a byte value gives the value. */
  lemma {:induction false} DecimalRoundTrip(n: nat)
    ensures DecimalValue(DecimalString(n)) == n
  {
    var s := DecimalString(n);
    if n < 10 {
      DigitValue(n);
      assert s[..0] == [];
    } else {
      DecimalRoundTrip(n / 10);
      DigitValue(n % 10);
      assert s[..|s| - 1] == DecimalString(n / 10) && s[|s| - 1] == Digit(n % 10);
      assert DecimalValue(s) == 10 * (n / 10) + n % 10;
    }
  }

  /** The digit character of `d` stands for `d`. */
  lemma DigitValue(d: nat)
    requires d < 10
    ensures Digit(d) as int - '0' as int == d
  {
  }

  /** A decimal string contains no `;`, the separator of the row and group keys. */
  lemma DecimalHasNoSeparator(n: nat)
    ensures ';' !in DecimalString(n)
  {
  }

  /** The decimal texts of a row of ids, as `string.Join` formats them. */
  function DecimalStrings(ids: seq<nat>): (texts: seq<string>)
    ensures |texts| == |ids|
    ensures NoSeparator(texts)
  {
    seq(|ids|, i requires 0 <= i < |ids| => DecimalString(ids[i]))
  }

  /**
    The level-2 dictionary key, the `";"`-joined decimal ids of a group,
    identifies the group: two groups of equal length get the same key if and
    only if they hold the same ids.
  */
  lemma Level2KeyInjective(a: seq<nat>, b: seq<nat>)
    requires |a| == |b|
    ensures JoinKey(DecimalStrings(a)) == JoinKey(DecimalStrings(b)) <==> a == b
  {
    JoinKeyInjective(DecimalStrings(a), DecimalStrings(b));
    if DecimalStrings(a) == DecimalStrings(b) {
      forall i | 0 <= i < |a|
        ensures a[i] == b[i]
      {
        assert DecimalString(a[i]) == DecimalStrings(a)[i] == DecimalStrings(b)[i] == DecimalString(b[i]);
        DecimalRoundTrip(a[i]);
        DecimalRoundTrip(b[i]);
      }
    }
  }

  /** Every key of `lo` is below every key of `hi`. */
  ghost predicate AllBelow(lo: set<nat>, hi: set<nat>)
  {
    forall x, y | x in lo && y in hi :: x < y
  }

  /** Moving a key from the keys remaining to the keys done keeps them a split of `all`. */
  lemma MoveKey(all: set<nat>, done: set<nat>, remaining: set<nat>, k: nat)
    requires remaining <= all && done == all - remaining && k in remaining
    ensures remaining - {k} <= all && done + {k} == all - (remaining - {k})
  {
  }

  /**
    One step of the flat dump: moving the least remaining key `k` to the
    keys done appends the bytes of its value, and keeps the keys done below
    the keys remaining.
  */
  lemma FlatStep(raw: map<nat, string>, encode: string -> seq<byte>, done: set<nat>, remaining: set<nat>, k: nat)
    requires done <= raw.Keys && k in raw
    requires AllBelow(done, remaining) && k in remaining
    requires forall y | y in remaining :: k <= y
    ensures AllBelow(done + {k}, remaining - {k})
    ensures ValueBytes(encode, ValuesAt(raw, AscendingKeys(done + {k})))
         == ValueBytes(encode, ValuesAt(raw, AscendingKeys(done))) + encode(raw[k])
  {
    var before := AscendingKeys(done);
    AscendingKeysAppend(done, k);
    ValuesAtAppend(raw, before, k);
    ValueBytesAppend(encode, ValuesAt(raw, before), raw[k]);
  }

  class DataTable {
    const tableType: byte
    const defaultValue: string
    const valueByteSize: byte
    const getValueBytes: string -> seq<byte>

    /** The sorted dictionary from codepoint to value. */
    var rawData: map<nat, string>
    /** Group number of each super-block. */
    var level1Index: seq<nat>
    /** Groups of 16 row ids (element offsets into level3Data). */
    var level2Index: seq<nat>
    /** Rows of 16 values. */
    var level3Data: seq<string>

    /** The constructor for a valid table type; Create models the throwing check. */
    constructor (tableType: byte, defaultValue: string, valueByteSize: byte, getValueBytes: string -> seq<byte>)
      requires tableType == 1 || tableType == 12
      ensures this.tableType == tableType && this.defaultValue == defaultValue
      ensures this.valueByteSize == valueByteSize && this.getValueBytes == getValueBytes
      ensures rawData == map[] && level1Index == [] && level2Index == [] && level3Data == []
    {
      this.tableType := tableType;
      this.defaultValue := defaultValue;
      this.valueByteSize := valueByteSize;
      this.getValueBytes := getValueBytes;
      rawData := map[];
      level1Index := [];
      level2Index := [];
      level3Data := [];
    }

    /** Construction: only table types 1 and 12 exist, any other throws. */
    static method Create(tableType: byte, defaultValue: string, valueByteSize: byte, getValueBytes: string -> seq<byte>)
      returns (r: Result<DataTable, TableError>)
      ensures r.Success? <==> tableType == 1 || tableType == 12
      ensures r.Failure? ==> r.error == InvalidTableType(tableType)
      ensures r.Success? ==> (
        && fresh(r.value)
        && r.value.tableType == tableType && r.value.defaultValue == defaultValue
        && r.value.valueByteSize == valueByteSize && r.value.getValueBytes == getValueBytes
        && r.value.rawData == map[] && r.value.level1Index == []
        && r.value.level2Index == [] && r.value.level3Data == [])
    {
      if tableType != 1 && tableType != 12 {
        return Failure(InvalidTableType(tableType));
      }
      var t := new DataTable(tableType, defaultValue, valueByteSize, getValueBytes);
      return Success(t);
    }

    /** Stores `value` for `codepoint`, replacing any earlier value. */
    method AddData(codepoint: nat, value: string)
      modifies this`rawData
      ensures rawData == old(rawData)[codepoint := value]
    {
      rawData := rawData[codepoint := value];
    }

    /** The byte overload of AddData: stores the decimal text of `value`. */
    method AddByteData(key: nat, value: byte)
      modifies this`rawData
      ensures rawData == old(rawData)[key := DecimalString(value)]
    {
      AddData(key, DecimalString(value));
    }

    /**
      The flat table: the callback's bytes of every stored value, in
      ascending codepoint order. Codepoints without an entry contribute
      nothing.
    */
    method GetBytesFlat() returns (flat: seq<byte>)
      ensures flat == ValueBytes(getValueBytes, StoredValues(rawData))
    {
      flat := [];
      var remaining := rawData.Keys;
      ghost var done: set<nat> := {};
      while remaining != {}
        invariant remaining <= rawData.Keys && done == rawData.Keys - remaining
        invariant AllBelow(done, remaining)
        invariant flat == ValueBytes(getValueBytes, ValuesAt(rawData, AscendingKeys(done)))
        decreases remaining
      {
        assert Min(remaining) in remaining;
        var k :| k in remaining && forall x | x in remaining :: k <= x;
        FlatStep(rawData, getValueBytes, done, remaining, k);
        MoveKey(rawData.Keys, done, remaining, k);
        flat := flat + getValueBytes(rawData[k]);
        done := done + {k};
        remaining := remaining - {k};
      }
      assert done == rawData.Keys;
    }

    /**
      The innermost loop of GenerateTable12_4_4: reads the 16 values of the
      row starting at codepoint `ch` into `level3RowData`, the default value
      for codepoints without an entry.
    */
    method FillRow(level3RowData: array<string>, ch: nat)
      requires level3RowData.Length == RowLength
      modifies level3RowData
      ensures level3RowData[..] == Row(rawData, defaultValue, ch)
    {
      var k := 0;
      while k < RowLength
        invariant k <= RowLength
        invariant forall m | 0 <= m < k :: level3RowData[m] == ValueAt(rawData, defaultValue, ch + m)
      {
        var value := if ch + k in rawData then rawData[ch + k] else defaultValue;
        level3RowData[k] := value;
        k := k + 1;
      }
      RowFromValues(rawData, defaultValue, ch, level3RowData[..]);
    }

    /**
      One pass of the outer loop of GenerateTable12_4_4, for super-block `sb`
      and the dictionaries `level2Hash` and `level3Hash`: the 16 rows are
      read and interned into level3Data, their ids interned as a group into
      level2Index, and the group number appended to level1Index. `ok` is
      false when a new row id or group number does not fit its width.
    */
    method InternSuperBlock(sb: nat, level2Hash: map<seq<nat>, nat>, level3Hash: map<seq<string>, nat>,
                            level3RowData: array<string>, level2RowData: array<nat>)
      returns (level2Hash': map<seq<nat>, nat>, level3Hash': map<seq<string>, nat>, ok: bool)
      requires level3RowData.Length == RowLength && level2RowData.Length == GroupLength
      modifies this`level1Index, this`level2Index, this`level3Data, level3RowData, level2RowData
      ensures SuperBlock(rawData, defaultValue, sb,
                         Tables(old(level1Index), Pool(old(level2Index), level2Hash), Pool(old(level3Data), level3Hash)))
           == if ok then Some(Tables(level1Index, Pool(level2Index, level2Hash'), Pool(level3Data, level3Hash'))) else None
    {
      ghost var cur := Tables(level1Index, Pool(level2Index, level2Hash), Pool(level3Data, level3Hash));
      level2Hash' := level2Hash;
      level3Hash' := level3Hash;
      var ch := 256 * sb;
      var j := 0;
      while j < GroupLength
        invariant j <= GroupLength && ch == 256 * sb + RowLength * j
        invariant level1Index == cur.level1 && level2Index == cur.groups.data && level2Hash' == cur.groups.index
        invariant InternRows(rawData, defaultValue, sb, j, Pool(level3Data, level3Hash'), level2RowData[..j])
               == InternRows(rawData, defaultValue, sb, 0, cur.rows, [])
      {
        ghost var ids := level2RowData[..j];
        FillRow(level3RowData, ch);
        var level3Key := level3RowData[..];
        ch := ch + RowLength;
        var id: nat;
        if level3Key in level3Hash' {
          id := level3Hash'[level3Key];
          InternRowsKnown(rawData, defaultValue, sb, j, level3Data, level3Hash', ids, level3Key);
        } else {
          if |level3Data| > MaxRowId {
            InternRowsOverflow(rawData, defaultValue, sb, j, level3Data, level3Hash', ids, level3Key);
            SuperBlockRowOverflow(rawData, defaultValue, sb, cur);
            return level2Hash', level3Hash', false;
          }
          id := |level3Data|;
          InternRowsNew(rawData, defaultValue, sb, j, level3Data, level3Hash', ids, level3Key);
          level3Hash' := level3Hash'[level3Key := id];
          level3Data := level3Data + level3Key;
        }
        level2RowData[j] := id;
        assert level2RowData[..j + 1] == ids + [id];
        j := j + 1;
      }
      var level2Key := level2RowData[..];
      assert level2RowData[..GroupLength] == level2Key;
      SuperBlockGroup(rawData, defaultValue, sb, cur, Pool(level3Data, level3Hash'), level2Key);
      var g: nat;
      if level2Key in level2Hash' {
        g := level2Hash'[level2Key];
      } else {
        if |level2Index| / GroupLength > MaxGroupId {
          return level2Hash', level3Hash', false;
        }
        g := |level2Index| / GroupLength;
        level2Hash' := level2Hash'[level2Key := g];
        level2Index := level2Index + level2Key;
      }
      level1Index := level1Index + [g];
      ok := true;
    }

    /**
      Builds the 12:4:4 table over planes 0 to 16: for every super-block of
      256 codepoints, each of its 16 rows of values is looked up by content
      and appended to level3Data when new, the 16 row ids of the super-block
      are looked up by content and appended to level2Index when new, and the
      group number goes to level1Index. New row ids must fit 16 bits and new
      group numbers 8 bits, or the build throws.
    */
    method GenerateTable12_4_4() returns (outcome: Outcome<TableError>)
      modifies this`level1Index, this`level2Index, this`level3Data
      ensures tableType != 12 ==> (
        && outcome == Fail(InvalidOperation)
        && level1Index == old(level1Index) && level2Index == old(level2Index) && level3Data == old(level3Data))
      ensures tableType == 12 ==>
        match Build(rawData, defaultValue, SuperBlockCount, old(level1Index), old(level2Index), old(level3Data))
        case None => outcome == Fail(Overflow)
        case Some(t) => (
          && outcome == Pass
          && level1Index == t.level1 && level2Index == t.groups.data && level3Data == t.rows.data)
    {
      if tableType != 12 {
        return Fail(InvalidOperation);
      }
      ghost var goal := Build(rawData, defaultValue, SuperBlockCount, level1Index, level2Index, level3Data);
      var level2Hash: map<seq<nat>, nat> := map[];
      var level3Hash: map<seq<string>, nat> := map[];
      var level3RowData := new string[RowLength];
      var level2RowData := new nat[GroupLength];

      var i := 0;
      while i < SuperBlockCount
        invariant i <= SuperBlockCount
        invariant BuildFrom(rawData, defaultValue, i, SuperBlockCount,
          Tables(level1Index, Pool(level2Index, level2Hash), Pool(level3Data, level3Hash))) == goal
      {
        BuildFromStep(rawData, defaultValue, i, SuperBlockCount,
          Tables(level1Index, Pool(level2Index, level2Hash), Pool(level3Data, level3Hash)));
        var ok;
        level2Hash, level3Hash, ok := InternSuperBlock(i, level2Hash, level3Hash, level3RowData, level2RowData);
        if !ok {
          return Fail(Overflow);
        }
        i := i + 1;
      }
      return Pass;
    }

    /**
      Serializes the 12:4:4 table: level-1 and level-2 entries relocated to
      word offsets and written as little-endian 16-bit words, level-3 values
      through the callback, and 0xEE padding after the values.
    */
    method GetBytes12_4_4() returns (level1: seq<byte>, level2: seq<byte>, level3: seq<byte>)
      ensures level1 == Words(Level1Words(level1Index))
      ensures level2 == Words(Level2Words(|level1Index|, level2Index, valueByteSize))
      ensures level3 == ValueBytes(getValueBytes, level3Data)
        + GetByteBoundaryBytes(16, |level1| + |level2| + |ValueBytes(getValueBytes, level3Data)| - 4, 0xEE)
      ensures (|level1| + |level2| + |level3|) % 16 == 4
    {
      var words1 := Level1Words(level1Index);
      level1 := [];
      var i := 0;
      while i < |level1Index|
        invariant i <= |level1Index| && level1 == Words(words1[..i])
      {
        WordsPrefixStep(words1, i);
        level1 := level1 + LittleEndian16(words1[i]);
        i := i + 1;
      }
      assert words1[..|level1Index|] == words1;

      var words2 := Level2Words(|level1Index|, level2Index, valueByteSize);
      level2 := [];
      i := 0;
      while i < |level2Index|
        invariant i <= |level2Index| && level2 == Words(words2[..i])
      {
        WordsPrefixStep(words2, i);
        level2 := level2 + LittleEndian16(words2[i]);
        i := i + 1;
      }
      assert words2[..|level2Index|] == words2;

      level3 := [];
      i := 0;
      while i < |level3Data|
        invariant i <= |level3Data| && level3 == ValueBytes(getValueBytes, level3Data[..i])
      {
        assert level3Data[..i + 1] == level3Data[..i] + [level3Data[i]];
        ValueBytesAppend(getValueBytes, level3Data[..i], level3Data[i]);
        level3 := level3 + getValueBytes(level3Data[i]);
        i := i + 1;
      }
      assert level3Data[..|level3Data|] == level3Data;
      assert level3 == ValueBytes(getValueBytes, level3Data);
      var padding := GetByteBoundaryBytes(16, |level1| + |level2| + |level3| - 4, 0xEE);
      PaddedLength(|level1| + |level2| + |level3|, padding);
      level3 := level3 + padding;
    }

    /**
      Padding that brings `offset` up to the next multiple of `byteBoundary`:
      none when it is a multiple already, else `byteBoundary - offset % byteBoundary`
      copies of `byteToFill`, with C#'s remainder (so a negative offset gets
      more than `byteBoundary` bytes).
    */
    static function GetByteBoundaryBytes(byteBoundary: int, offset: int, byteToFill: byte): (r: seq<byte>)
      requires byteBoundary > 0
      ensures (offset + |r|) % byteBoundary == 0
      ensures forall i | 0 <= i < |r| :: r[i] == byteToFill
      ensures |r| == 0 <==> offset % byteBoundary == 0
      ensures offset >= 0 ==> |r| < byteBoundary
      ensures offset < 0 && |r| > 0 ==> byteBoundary <= |r| < 2 * byteBoundary
    {
      var remainder := CsRemainder(offset, byteBoundary);
      assert Abs(byteBoundary) == byteBoundary;
      if remainder == 0 then []
      else
        var k := (offset - remainder) / byteBoundary;
        assert offset - remainder == byteBoundary * k + (offset - remainder) % byteBoundary;
        assert offset + (byteBoundary - remainder) == byteBoundary * (k + 1);
        MultipleMod(byteBoundary, k + 1);
        seq(byteBoundary - remainder, _ => byteToFill)
    }
  }
}
