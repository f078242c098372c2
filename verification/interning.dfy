/**
  Content-keyed interning of fixed-size blocks, as the table generator does
  at two levels: 16-value rows into the level-3 data table and 16-id groups
  into the level-2 index table. The generator keys its dictionaries by the
  `";"`-joined text of a block; this model keys them by the block itself,
  which is the same dictionary whenever no value contains `';'`
  (JoinKeyInjective below, and JoinKeyCollision for what goes wrong otherwise).
*/
module Interning {
  import opened Wrappers

  /** Entries per interned block: 16 values per row, 16 row ids per group. */
  const BlockLength := 16

  /**
    One deduplication level: the append-only table of blocks (`data`) and the
    dictionary from a block's content to the id it was given (`index`).
  */
  datatype Pool<T(==)> = Pool(data: seq<T>, index: map<seq<T>, nat>)

  /**
    How a level names a block: level 3 by the element offset at which the
    block starts in the data table, level 2 by the block's ordinal.
  */
  datatype IdScheme = ElementOffset | BlockNumber

  /** The id of the block with ordinal `t` under `scheme`. */
  function IdOf(scheme: IdScheme, t: nat): nat
  {
    if scheme == ElementOffset then BlockLength * t else t
  }

  /** The ordinal of the block named by `id` under `scheme`. */
  function BlockIndex(scheme: IdScheme, id: nat): nat
  {
    if scheme == ElementOffset then id / BlockLength else id
  }

  /** The block with ordinal `t` of a table that grows by whole blocks. */
  function Block<T>(s: seq<T>, t: nat): seq<T>
    requires BlockLength * t + BlockLength <= |s|
  {
    s[BlockLength * t .. BlockLength * t + BlockLength]
  }

  /**
    Looks `block` up; when it is new, gives it the id `newId` and appends it.
    The id is converted with a checked cast, so a new id above `maxId` throws
    an overflow (None) instead of being truncated.
  */
  function Intern<T(==)>(p: Pool<T>, block: seq<T>, newId: nat, maxId: nat): Option<(Pool<T>, nat)>
  {
    if block in p.index then Some((p, p.index[block]))
    else if newId > maxId then None
    else Some((Pool(p.data + block, p.index[block := newId]), newId))
  }

  /**
    The invariant of a pool built by Intern from an empty dictionary: the
    table holds whole blocks, every block is in the dictionary under its own
    id, every id fits the id width, and every dictionary entry names the block
    whose content is its key.
  */
  ghost predicate WellInterned<T>(p: Pool<T>, scheme: IdScheme, maxId: nat)
  {
    && |p.data| % BlockLength == 0
    && (forall t | 0 <= t < |p.data| / BlockLength ::
          Block(p.data, t) in p.index && p.index[Block(p.data, t)] == IdOf(scheme, t) && IdOf(scheme, t) <= maxId)
    && (forall key | key in p.index ::
          && BlockIndex(scheme, p.index[key]) < |p.data| / BlockLength
          && IdOf(scheme, BlockIndex(scheme, p.index[key])) == p.index[key]
          && Block(p.data, BlockIndex(scheme, p.index[key])) == key)
  }

  /** A table's blocks do not move when blocks are appended after them. */
  lemma BlockOfPrefix<T>(s: seq<T>, s': seq<T>, t: nat)
    requires s <= s'
    requires BlockLength * t + BlockLength <= |s|
    ensures Block(s', t) == Block(s, t)
  {
    assert s == s'[..|s|];
  }

  /**
    Interning a 16-entry block keeps a pool well interned, only appends to its
    table, and returns an id that names a block equal to the one interned; a
    known block returns its old id and changes nothing, a new one is appended
    under `newId`, and the only failure is a new block whose id does not fit.
  */
  lemma {:induction false} InternKeepsWellInterned<T>(p: Pool<T>, block: seq<T>, scheme: IdScheme, newId: nat, maxId: nat)
    requires WellInterned(p, scheme, maxId)
    requires |block| == BlockLength
    requires newId == IdOf(scheme, |p.data| / BlockLength)
    ensures Intern(p, block, newId, maxId).None? <==> block !in p.index && newId > maxId
    ensures Intern(p, block, newId, maxId).Some? ==>
      var (p', id) := Intern(p, block, newId, maxId).value;
      && WellInterned(p', scheme, maxId)
      && p.data <= p'.data
      && id <= maxId
      && BlockIndex(scheme, id) < |p'.data| / BlockLength
      && IdOf(scheme, BlockIndex(scheme, id)) == id
      && Block(p'.data, BlockIndex(scheme, id)) == block
      && (block in p.index ==> p' == p)
      && (block !in p.index ==> p'.data == p.data + block && id == newId)
  {
    if block !in p.index && newId <= maxId {
      var p' := Pool(p.data + block, p.index[block := newId]);
      var n := |p.data| / BlockLength;
      assert |p'.data| / BlockLength == n + 1;
      assert Block(p'.data, n) == block;
      forall t | 0 <= t < n
        ensures Block(p'.data, t) == Block(p.data, t)
      {
        BlockOfPrefix(p.data, p'.data, t);
      }
      assert BlockIndex(scheme, newId) == n;
      forall key | key in p'.index
        ensures BlockIndex(scheme, p'.index[key]) < |p'.data| / BlockLength
        ensures IdOf(scheme, BlockIndex(scheme, p'.index[key])) == p'.index[key]
        ensures Block(p'.data, BlockIndex(scheme, p'.index[key])) == key
      {
        if key != block {
          BlockOfPrefix(p.data, p'.data, BlockIndex(scheme, p.index[key]));
        }
      }
      assert WellInterned(p', scheme, maxId);
    } else if block in p.index {
      var t := BlockIndex(scheme, p.index[block]);
      assert IdOf(scheme, t) == p.index[block];
    }
  }

  /** Distinct ordinals name distinct blocks: no pattern is stored twice. */
  lemma {:induction false} WellInternedBlocksDistinct<T>(p: Pool<T>, scheme: IdScheme, maxId: nat, t1: nat, t2: nat)
    requires WellInterned(p, scheme, maxId)
    requires t1 < |p.data| / BlockLength && t2 < |p.data| / BlockLength
    ensures Block(p.data, t1) == Block(p.data, t2) <==> t1 == t2
  {
    if Block(p.data, t1) == Block(p.data, t2) {
      assert IdOf(scheme, t1) == p.index[Block(p.data, t1)] == IdOf(scheme, t2);
    }
  }

  /** A well-interned table holds no block twice, and its last block's id fits the width. */
  lemma WellInternedDistinct<T>(p: Pool<T>, scheme: IdScheme, maxId: nat)
    requires WellInterned(p, scheme, maxId)
    ensures forall a, b | 0 <= a < b < |p.data| / BlockLength :: Block(p.data, a) != Block(p.data, b)
    ensures |p.data| > 0 ==> IdOf(scheme, |p.data| / BlockLength - 1) <= maxId
  {
    forall a, b | 0 <= a < b < |p.data| / BlockLength
      ensures Block(p.data, a) != Block(p.data, b)
    {
      WellInternedBlocksDistinct(p, scheme, maxId, a, b);
    }
  }

  /** `string.Join(";", values)`: the text of a dictionary key. */
  function JoinKey(values: seq<string>): string
  {
    if |values| == 0 then ""
    else if |values| == 1 then values[0]
    else values[0] + ";" + JoinKey(values[1..])
  }

  /** No value of the row contains the separator. */
  predicate NoSeparator(values: seq<string>)
  {
    forall i | 0 <= i < |values| :: ';' !in values[i]
  }

  /** The position of the first `';'` in `s`, or `|s|` when there is none. */
  function FirstSeparator(s: string): (i: nat)
    ensures i <= |s|
  {
    if |s| == 0 || s[0] == ';' then 0 else 1 + FirstSeparator(s[1..])
  }

  lemma {:induction false} FirstSeparatorAfter(x: string, r: string)
    requires ';' !in x
    ensures FirstSeparator(x + ";" + r) == |x|
  {
    if |x| > 0 {
      assert (x + ";" + r)[1..] == x[1..] + ";" + r;
      FirstSeparatorAfter(x[1..], r);
    }
  }

  /** Two separator-free prefixes of the same text, each followed by ';', are equal. */
  lemma FirstFieldEqual(x: string, y: string, r1: string, r2: string)
    requires ';' !in x && ';' !in y
    requires x + ";" + r1 == y + ";" + r2
    ensures x == y && r1 == r2
  {
    var a := x + ";" + r1;
    FirstSeparatorAfter(x, r1);
    FirstSeparatorAfter(y, r2);
    assert x == a[..|x|] == y;
    assert r1 == a[|x| + 1..] == r2;
  }

  /**
    Joined with `";"`, rows of equal length whose values contain no `';'`
    have equal keys only if they are equal: keying the dictionary by the
    row itself is then exact.
  */
  lemma {:induction false} JoinKeyInjective(a: seq<string>, b: seq<string>)
    requires |a| == |b|
    requires NoSeparator(a) && NoSeparator(b)
    ensures JoinKey(a) == JoinKey(b) <==> a == b
  {
    if JoinKey(a) == JoinKey(b) && |a| >= 2 {
      assert NoSeparator(a[1..]) && NoSeparator(b[1..]);
      FirstFieldEqual(a[0], b[0], JoinKey(a[1..]), JoinKey(b[1..]));
      JoinKeyInjective(a[1..], b[1..]);
      assert a == [a[0]] + a[1..];
      assert b == [b[0]] + b[1..];
    }
  }

  /** With a `';'` inside a value, two different rows share one dictionary key. */
  lemma JoinKeyCollision()
    ensures JoinKey(["x;y", "z"]) == JoinKey(["x", "y;z"])
    ensures ["x;y", "z"] != ["x", "y;z"]
  {
    assert JoinKey(["x;y", "z"]) == "x;y" + ";" + "z";
    assert JoinKey(["x", "y;z"]) == "x" + ";" + "y;z";
    assert ["x;y", "z"][0] != ["x", "y;z"][0];
  }
}
