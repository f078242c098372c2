/**
  A pure reference definition of the 12:4:4 table generation: the key space
  is cut into super-blocks of 256 codepoints, each into 16 rows of 16
  codepoints; rows are interned into the level-3 data table (ids are element
  offsets), each super-block's 16 row ids are interned as a group into the
  level-2 index table (ids are group ordinals), and the group id of every
  super-block is appended to the level-1 index table. The recursion runs
  forward, in the order the generator's loops run, so that the state of a
  loop can be tied to "what is left to do".
*/
module TableBuild {
  import opened Wrappers
  import opened Store
  import opened Interning

  /** Codepoints per row, rows per super-block (level3block, level2block). */
  const RowLength := 16
  const GroupLength := 16
  /** Unicode planes covered: 256 super-blocks each. */
  const Planes := 17
  const SuperBlockCount := 256 * Planes
  /** A row id is a ushort, a group id a byte. */
  const MaxRowId := 0xFFFF
  const MaxGroupId := 0xFF

  /** The effective values of the 16 codepoints from `base` on. */
  function Row(raw: map<nat, string>, defaultValue: string, base: nat): seq<string>
  {
    seq(RowLength, k requires 0 <= k < RowLength => ValueAt(raw, defaultValue, base + k))
  }

  /** The three tables being built, with the two dictionaries of the build. */
  datatype Tables = Tables(level1: seq<nat>, groups: Pool<nat>, rows: Pool<string>)

  /** The tables as they stand before a build: the lists, and empty dictionaries. */
  function Start(level1: seq<nat>, level2: seq<nat>, level3: seq<string>): Tables
  {
    Tables(level1, Pool(level2, map[]), Pool(level3, map[]))
  }

  /**
    Interns rows `j` .. 15 of super-block `sb`, appending their ids to `ids`;
    None when a new row's id overflows a ushort.
  */
  function InternRows(raw: map<nat, string>, defaultValue: string, sb: nat, j: nat,
                      rows: Pool<string>, ids: seq<nat>): Option<(Pool<string>, seq<nat>)>
    requires j <= GroupLength
    decreases GroupLength - j
  {
    if j == GroupLength then Some((rows, ids))
    else
      match Intern(rows, Row(raw, defaultValue, 256 * sb + RowLength * j), |rows.data|, MaxRowId)
      case None => None
      case Some((rows', id)) => InternRows(raw, defaultValue, sb, j + 1, rows', ids + [id])
  }

  /** Processes super-block `sb`: its 16 rows, then its group, then one level-1 entry. */
  function SuperBlock(raw: map<nat, string>, defaultValue: string, sb: nat, t: Tables): Option<Tables>
  {
    match InternRows(raw, defaultValue, sb, 0, t.rows, [])
    case None => None
    case Some((rows', ids)) =>
      match Intern(t.groups, ids, |t.groups.data| / GroupLength, MaxGroupId)
      case None => None
      case Some((groups', g)) => Some(Tables(t.level1 + [g], groups', rows'))
  }

  /** Processes super-blocks `i` .. `n` - 1 in ascending order. */
  function BuildFrom(raw: map<nat, string>, defaultValue: string, i: nat, n: nat, t: Tables): Option<Tables>
    requires i <= n
    decreases n - i
  {
    if i == n then Some(t)
    else
      match SuperBlock(raw, defaultValue, i, t)
      case None => None
      case Some(t') => BuildFrom(raw, defaultValue, i + 1, n, t')
  }

  /** The generation over `n` super-blocks, starting from the given lists. */
  function Build(raw: map<nat, string>, defaultValue: string, n: nat,
                 level1: seq<nat>, level2: seq<nat>, level3: seq<string>): Option<Tables>
  {
    BuildFrom(raw, defaultValue, 0, n, Start(level1, level2, level3))
  }

  /**
    The three-step lookup a consumer performs on the logical tables:
    level 1 at `c >> 8`, then level 2 at that group's entry `(c >> 4) & 15`,
    then level 3 at that row's entry `c & 15`; None when an index is out of range.
  */
  function Lookup(level1: seq<nat>, level2: seq<nat>, level3: seq<string>, c: nat): Option<string>
  {
    var s := c / 256;
    if s < |level1| && 16 * level1[s] + (c / 16) % 16 < |level2|
       && level2[16 * level1[s] + (c / 16) % 16] + c % 16 < |level3|
    then Some(level3[level2[16 * level1[s] + (c / 16) % 16] + c % 16])
    else None
  }

  // ----- Single steps, as the generator takes them -----

  /** The 16 values read for row `base / 16` form that row. */
  lemma RowFromValues(raw: map<nat, string>, defaultValue: string, base: nat, values: seq<string>)
    requires |values| == RowLength
    requires forall m | 0 <= m < RowLength :: values[m] == ValueAt(raw, defaultValue, base + m)
    ensures values == Row(raw, defaultValue, base)
  {
  }

  /** One step of InternRows, stated for a known outcome of interning row `j`. */
  lemma InternRowsStep(raw: map<nat, string>, defaultValue: string, sb: nat, j: nat,
                       rows: Pool<string>, ids: seq<nat>, rows': Pool<string>, id: nat)
    requires j < GroupLength
    requires Intern(rows, Row(raw, defaultValue, 256 * sb + RowLength * j), |rows.data|, MaxRowId) == Some((rows', id))
    ensures InternRows(raw, defaultValue, sb, j, rows, ids) == InternRows(raw, defaultValue, sb, j + 1, rows', ids + [id])
  {
  }

  /** SuperBlock, stated for known outcomes of its row and group interning. */
  lemma SuperBlockStep(raw: map<nat, string>, defaultValue: string, sb: nat, t: Tables,
                       rows': Pool<string>, ids: seq<nat>, groups': Pool<nat>, g: nat)
    requires InternRows(raw, defaultValue, sb, 0, t.rows, []) == Some((rows', ids))
    requires Intern(t.groups, ids, |t.groups.data| / GroupLength, MaxGroupId) == Some((groups', g))
    ensures SuperBlock(raw, defaultValue, sb, t) == Some(Tables(t.level1 + [g], groups', rows'))
  {
  }

  /** Interning row `j` when its content is already known reuses the known id. */
  lemma InternRowsKnown(raw: map<nat, string>, defaultValue: string, sb: nat, j: nat,
                        data: seq<string>, index: map<seq<string>, nat>, ids: seq<nat>, key: seq<string>)
    requires j < GroupLength && key == Row(raw, defaultValue, 256 * sb + RowLength * j)
    requires key in index
    ensures InternRows(raw, defaultValue, sb, j, Pool(data, index), ids)
         == InternRows(raw, defaultValue, sb, j + 1, Pool(data, index), ids + [index[key]])
  {
  }

  /** Interning a new row `j` appends it, with the current element count as its id. */
  lemma InternRowsNew(raw: map<nat, string>, defaultValue: string, sb: nat, j: nat,
                      data: seq<string>, index: map<seq<string>, nat>, ids: seq<nat>, key: seq<string>)
    requires j < GroupLength && key == Row(raw, defaultValue, 256 * sb + RowLength * j)
    requires key !in index && |data| <= MaxRowId
    ensures InternRows(raw, defaultValue, sb, j, Pool(data, index), ids)
         == InternRows(raw, defaultValue, sb, j + 1, Pool(data + key, index[key := |data|]), ids + [|data|])
  {
  }

  /** A new row whose id would not fit 16 bits ends InternRows. */
  lemma InternRowsOverflow(raw: map<nat, string>, defaultValue: string, sb: nat, j: nat,
                           data: seq<string>, index: map<seq<string>, nat>, ids: seq<nat>, key: seq<string>)
    requires j < GroupLength && key == Row(raw, defaultValue, 256 * sb + RowLength * j)
    requires key !in index && |data| > MaxRowId
    ensures InternRows(raw, defaultValue, sb, j, Pool(data, index), ids) == None
  {
  }

  /** A failed row ends SuperBlock. */
  lemma SuperBlockRowOverflow(raw: map<nat, string>, defaultValue: string, sb: nat, t: Tables)
    requires InternRows(raw, defaultValue, sb, 0, t.rows, []) == None
    ensures SuperBlock(raw, defaultValue, sb, t) == None
  {
  }

  /** The group of a super-block whose rows gave `ids`, by the three cases of interning it. */
  lemma SuperBlockGroup(raw: map<nat, string>, defaultValue: string, sb: nat, t: Tables, rows: Pool<string>, ids: seq<nat>)
    requires InternRows(raw, defaultValue, sb, 0, t.rows, []) == Some((rows, ids))
    ensures ids in t.groups.index ==>
      SuperBlock(raw, defaultValue, sb, t) == Some(Tables(t.level1 + [t.groups.index[ids]], t.groups, rows))
    ensures ids !in t.groups.index && |t.groups.data| / GroupLength <= MaxGroupId ==>
      SuperBlock(raw, defaultValue, sb, t) == Some(Tables(t.level1 + [|t.groups.data| / GroupLength],
        Pool(t.groups.data + ids, t.groups.index[ids := |t.groups.data| / GroupLength]), rows))
    ensures ids !in t.groups.index && |t.groups.data| / GroupLength > MaxGroupId ==>
      SuperBlock(raw, defaultValue, sb, t) == None
  {
  }

  /** One step of BuildFrom. */
  lemma BuildFromStep(raw: map<nat, string>, defaultValue: string, i: nat, n: nat, t: Tables)
    requires i < n
    ensures BuildFrom(raw, defaultValue, i, n, t)
         == match SuperBlock(raw, defaultValue, i, t)
            case None => None
            case Some(t') => BuildFrom(raw, defaultValue, i + 1, n, t')
  {
  }

  // ----- The invariant of a build started from empty lists -----

  /** `id` is a row id whose block holds row `j` of super-block `sb`. */
  ghost predicate RowAt(raw: map<nat, string>, defaultValue: string, sb: nat, j: nat, id: nat, data: seq<string>)
  {
    id % RowLength == 0 && id + RowLength <= |data| && Block(data, id / RowLength) == Row(raw, defaultValue, 256 * sb + RowLength * j)
  }

  /** `ids` are 16 row ids holding, in order, the 16 rows of super-block `sb`. */
  ghost predicate RowsAt(raw: map<nat, string>, defaultValue: string, sb: nat, ids: seq<nat>, data: seq<string>)
  {
    && |ids| == GroupLength
    && forall j | 0 <= j < GroupLength :: RowAt(raw, defaultValue, sb, j, ids[j], data)
  }

  /** `g` is a group id whose block of row ids holds the 16 rows of super-block `sb`. */
  ghost predicate GroupAt(raw: map<nat, string>, defaultValue: string, sb: nat, g: nat, t: Tables)
  {
    && g < |t.groups.data| / GroupLength
    && RowsAt(raw, defaultValue, sb, Block(t.groups.data, g), t.rows.data)
  }

  /** What holds after the first `i` super-blocks have been processed. */
  ghost predicate Consistent(raw: map<nat, string>, defaultValue: string, i: nat, t: Tables)
  {
    && WellInterned(t.rows, ElementOffset, MaxRowId)
    && WellInterned(t.groups, BlockNumber, MaxGroupId)
    && (forall q | 0 <= q < |t.groups.data| :: t.groups.data[q] % RowLength == 0 && t.groups.data[q] + RowLength <= |t.rows.data|)
    && |t.level1| == i
    && (forall s | 0 <= s < i :: GroupAt(raw, defaultValue, s, t.level1[s], t))
  }

  lemma RowAtExtends(raw: map<nat, string>, defaultValue: string, sb: nat, j: nat, id: nat, data: seq<string>, data': seq<string>)
    requires RowAt(raw, defaultValue, sb, j, id, data)
    requires data <= data'
    ensures RowAt(raw, defaultValue, sb, j, id, data')
  {
    BlockOfPrefix(data, data', id / RowLength);
  }

  lemma RowsAtExtends(raw: map<nat, string>, defaultValue: string, sb: nat, ids: seq<nat>, data: seq<string>, data': seq<string>)
    requires RowsAt(raw, defaultValue, sb, ids, data)
    requires data <= data'
    ensures RowsAt(raw, defaultValue, sb, ids, data')
  {
    forall j | 0 <= j < GroupLength
      ensures RowAt(raw, defaultValue, sb, j, ids[j], data')
    {
      RowAtExtends(raw, defaultValue, sb, j, ids[j], data, data');
    }
  }

  /** Interning the remaining rows of a super-block yields 16 ids, each naming its row. */
  lemma {:induction false} InternRowsSound(raw: map<nat, string>, defaultValue: string, sb: nat, j: nat,
                                           rows: Pool<string>, ids: seq<nat>)
    requires j <= GroupLength
    requires WellInterned(rows, ElementOffset, MaxRowId)
    requires |ids| == j
    requires forall jj | 0 <= jj < j :: RowAt(raw, defaultValue, sb, jj, ids[jj], rows.data)
    ensures InternRows(raw, defaultValue, sb, j, rows, ids).Some? ==>
      var (rows', ids') := InternRows(raw, defaultValue, sb, j, rows, ids).value;
      && WellInterned(rows', ElementOffset, MaxRowId)
      && rows.data <= rows'.data
      && RowsAt(raw, defaultValue, sb, ids', rows'.data)
    decreases GroupLength - j
  {
    if j < GroupLength {
      var row := Row(raw, defaultValue, 256 * sb + RowLength * j);
      assert |rows.data| == IdOf(ElementOffset, |rows.data| / BlockLength);
      InternKeepsWellInterned(rows, row, ElementOffset, |rows.data|, MaxRowId);
      var r := Intern(rows, row, |rows.data|, MaxRowId);
      if r.Some? {
        var (rows', id) := r.value;
        var ids' := ids + [id];
        forall jj | 0 <= jj < j + 1
          ensures RowAt(raw, defaultValue, sb, jj, ids'[jj], rows'.data)
        {
          if jj < j {
            RowAtExtends(raw, defaultValue, sb, jj, ids[jj], rows.data, rows'.data);
          }
        }
        InternRowsSound(raw, defaultValue, sb, j + 1, rows', ids');
      }
    }
  }

  /** Appending a group of valid row ids keeps every level-2 entry a valid row id. */
  lemma GroupEntriesValid(raw: map<nat, string>, defaultValue: string, sb: nat,
                          groups: seq<nat>, ids: seq<nat>, groups': seq<nat>, rows: seq<string>, rows': seq<string>)
    requires forall q | 0 <= q < |groups| :: groups[q] % RowLength == 0 && groups[q] + RowLength <= |rows|
    requires RowsAt(raw, defaultValue, sb, ids, rows')
    requires rows <= rows'
    requires groups' == groups || groups' == groups + ids
    ensures forall q | 0 <= q < |groups'| :: groups'[q] % RowLength == 0 && groups'[q] + RowLength <= |rows'|
  {
    forall q | 0 <= q < |groups'|
      ensures groups'[q] % RowLength == 0 && groups'[q] + RowLength <= |rows'|
    {
      if q >= |groups| {
        assert groups'[q] == ids[q - |groups|];
        assert RowAt(raw, defaultValue, sb, q - |groups|, ids[q - |groups|], rows');
      } else {
        assert groups'[q] == groups[q];
      }
    }
  }

  /** The groups of earlier super-blocks still resolve once the tables have grown. */
  lemma GroupAtExtends(raw: map<nat, string>, defaultValue: string, s: nat, g: nat, t: Tables, t': Tables)
    requires GroupAt(raw, defaultValue, s, g, t)
    requires t.groups.data <= t'.groups.data && t.rows.data <= t'.rows.data
    ensures GroupAt(raw, defaultValue, s, g, t')
  {
    BlockOfPrefix(t.groups.data, t'.groups.data, g);
    RowsAtExtends(raw, defaultValue, s, Block(t.groups.data, g), t.rows.data, t'.rows.data);
  }

  /** One super-block step keeps the invariant and extends every table. */
  lemma {:induction false} SuperBlockSound(raw: map<nat, string>, defaultValue: string, i: nat, t: Tables)
    requires Consistent(raw, defaultValue, i, t)
    ensures SuperBlock(raw, defaultValue, i, t).Some? ==>
      var t' := SuperBlock(raw, defaultValue, i, t).value;
      && Consistent(raw, defaultValue, i + 1, t')
      && t.level1 <= t'.level1 && t.groups.data <= t'.groups.data && t.rows.data <= t'.rows.data
  {
    InternRowsSound(raw, defaultValue, i, 0, t.rows, []);
    var r := InternRows(raw, defaultValue, i, 0, t.rows, []);
    if r.Some? {
      var (rows', ids) := r.value;
      assert |t.groups.data| / GroupLength == IdOf(BlockNumber, |t.groups.data| / BlockLength);
      InternKeepsWellInterned(t.groups, ids, BlockNumber, |t.groups.data| / GroupLength, MaxGroupId);
      var gr := Intern(t.groups, ids, |t.groups.data| / GroupLength, MaxGroupId);
      if gr.Some? {
        var (groups', g) := gr.value;
        var t' := Tables(t.level1 + [g], groups', rows');
        GroupEntriesValid(raw, defaultValue, i, t.groups.data, ids, groups'.data, t.rows.data, rows'.data);
        forall s | 0 <= s < i + 1
          ensures GroupAt(raw, defaultValue, s, t'.level1[s], t')
        {
          if s < i {
            GroupAtExtends(raw, defaultValue, s, t.level1[s], t, t');
          }
        }
      }
    }
  }

  /** Processing the remaining super-blocks keeps the invariant. */
  lemma {:induction false} BuildFromSound(raw: map<nat, string>, defaultValue: string, i: nat, n: nat, t: Tables)
    requires i <= n
    requires Consistent(raw, defaultValue, i, t)
    ensures BuildFrom(raw, defaultValue, i, n, t).Some? ==> Consistent(raw, defaultValue, n, BuildFrom(raw, defaultValue, i, n, t).value)
    decreases n - i
  {
    if i < n {
      SuperBlockSound(raw, defaultValue, i, t);
      var r := SuperBlock(raw, defaultValue, i, t);
      if r.Some? {
        BuildFromSound(raw, defaultValue, i + 1, n, r.value);
      }
    }
  }

  /** A build from empty lists that succeeds leaves the tables consistent. */
  lemma BuildConsistent(raw: map<nat, string>, defaultValue: string, n: nat, t: Tables)
    requires Build(raw, defaultValue, n, [], [], []) == Some(t)
    ensures Consistent(raw, defaultValue, n, t)
  {
    assert Consistent(raw, defaultValue, 0, Start([], [], []));
    BuildFromSound(raw, defaultValue, 0, n, Start([], [], []));
  }

  // ----- Properties of a completed build -----

  /** A codepoint splits into its super-block, its row in the super-block, and its column. */
  lemma SplitCodepoint(c: nat, n: nat)
    requires c < 256 * n
    ensures c / 256 < n && (c / 16) % 16 < 16 && c % 16 < 16
    ensures c == 256 * (c / 256) + RowLength * ((c / 16) % 16) + c % 16
  {
    var q := c / 16;
    assert c == 16 * q + c % 16;
    assert q == 16 * (q / 16) + q % 16;
    assert q / 16 == c / 256;
  }

  lemma LookupAt(raw: map<nat, string>, defaultValue: string, n: nat, t: Tables, c: nat)
    requires Consistent(raw, defaultValue, n, t)
    requires c < 256 * n
    ensures Lookup(t.level1, t.groups.data, t.rows.data, c) == Some(ValueAt(raw, defaultValue, c))
  {
    SplitCodepoint(c, n);
    var s, j, k := c / 256, (c / 16) % 16, c % 16;
    var g := t.level1[s];
    assert GroupAt(raw, defaultValue, s, g, t);
    ResolvedEntry(raw, defaultValue, s, j, k, g, t);
  }

  /** The entry at column `k` of row `j` of a group that resolves super-block `s`. */
  lemma ResolvedEntry(raw: map<nat, string>, defaultValue: string, s: nat, j: nat, k: nat, g: nat, t: Tables)
    requires GroupAt(raw, defaultValue, s, g, t)
    requires j < GroupLength && k < RowLength
    ensures GroupLength * g + j < |t.groups.data|
    ensures t.groups.data[GroupLength * g + j] + k < |t.rows.data|
    ensures t.rows.data[t.groups.data[GroupLength * g + j] + k] == ValueAt(raw, defaultValue, 256 * s + RowLength * j + k)
  {
    var ids := Block(t.groups.data, g);
    assert RowAt(raw, defaultValue, s, j, ids[j], t.rows.data);
    assert ids[j] == t.groups.data[GroupLength * g + j];
    var id := ids[j];
    assert t.rows.data[id + k] == Block(t.rows.data, id / RowLength)[k];
  }

  /**
    Lookup correctness: after generating `n` super-blocks from empty lists,
    level 1 has one entry per super-block, and every codepoint below `256 * n`
    looked up through the three levels yields its stored value, or the default
    value when it has none.
  */
  lemma BuildResolves(raw: map<nat, string>, defaultValue: string, n: nat, t: Tables)
    requires Build(raw, defaultValue, n, [], [], []) == Some(t)
    ensures |t.level1| == n
    ensures forall c | 0 <= c < 256 * n :: Lookup(t.level1, t.groups.data, t.rows.data, c) == Some(ValueAt(raw, defaultValue, c))
  {
    BuildConsistent(raw, defaultValue, n, t);
    forall c | 0 <= c < 256 * n
      ensures Lookup(t.level1, t.groups.data, t.rows.data, c) == Some(ValueAt(raw, defaultValue, c))
    {
      LookupAt(raw, defaultValue, n, t, c);
    }
  }

  /**
    The deduplication invariant of a completed build: both tables hold whole
    blocks of 16 and no block twice; every level-2 entry is a level-3 element
    offset that is a multiple of 16, fits a ushort and starts a whole row; every
    level-1 entry is a group ordinal that fits a byte and names a whole group.
    Hence at most 4096 distinct rows and 256 distinct groups are ever stored.
  */
  lemma BuildDeduplicates(raw: map<nat, string>, defaultValue: string, n: nat, t: Tables)
    requires Build(raw, defaultValue, n, [], [], []) == Some(t)
    ensures |t.rows.data| % RowLength == 0 && |t.groups.data| % GroupLength == 0
    ensures |t.rows.data| <= RowLength * 4096 && |t.groups.data| <= GroupLength * 256
    ensures forall a, b | 0 <= a < b < |t.rows.data| / RowLength :: Block(t.rows.data, a) != Block(t.rows.data, b)
    ensures forall a, b | 0 <= a < b < |t.groups.data| / GroupLength :: Block(t.groups.data, a) != Block(t.groups.data, b)
    ensures forall q | 0 <= q < |t.groups.data| ::
      t.groups.data[q] % RowLength == 0 && t.groups.data[q] + RowLength <= |t.rows.data| && t.groups.data[q] <= MaxRowId
    ensures forall s | 0 <= s < |t.level1| :: t.level1[s] < |t.groups.data| / GroupLength && t.level1[s] <= MaxGroupId
  {
    BuildConsistent(raw, defaultValue, n, t);
    WellInternedDistinct(t.rows, ElementOffset, MaxRowId);
    WellInternedDistinct(t.groups, BlockNumber, MaxGroupId);
    EntriesFit(raw, defaultValue, n, t);
    TableSizes(t.rows.data, t.groups.data);
  }

  lemma TableSizes(rows: seq<string>, groups: seq<nat>)
    requires |rows| % RowLength == 0 && |groups| % GroupLength == 0
    requires |rows| > 0 ==> IdOf(ElementOffset, |rows| / BlockLength - 1) <= MaxRowId
    requires |groups| > 0 ==> IdOf(BlockNumber, |groups| / BlockLength - 1) <= MaxGroupId
    ensures |rows| <= RowLength * 4096 && |groups| <= GroupLength * 256
  {
  }

  lemma EntriesFit(raw: map<nat, string>, defaultValue: string, n: nat, t: Tables)
    requires Consistent(raw, defaultValue, n, t)
    ensures forall q | 0 <= q < |t.groups.data| :: t.groups.data[q] <= MaxRowId
    ensures forall s | 0 <= s < |t.level1| :: t.level1[s] <= MaxGroupId
  {
    forall q | 0 <= q < |t.groups.data|
      ensures t.groups.data[q] <= MaxRowId
    {
      var id := t.groups.data[q];
      assert id % RowLength == 0 && id + RowLength <= |t.rows.data|;
      assert IdOf(ElementOffset, id / RowLength) == id;
    }
    forall s | 0 <= s < |t.level1|
      ensures t.level1[s] <= MaxGroupId
    {
      assert GroupAt(raw, defaultValue, s, t.level1[s], t);
      assert IdOf(BlockNumber, t.level1[s]) == t.level1[s];
    }
  }

  /** The row id a build gives to row `j` of super-block `s`. */
  function RowIdOf(t: Tables, s: nat, j: nat): nat
    requires s < |t.level1| && GroupLength * t.level1[s] + j < |t.groups.data|
  {
    t.groups.data[GroupLength * t.level1[s] + j]
  }

  /**
    Rows are shared exactly when their contents agree: two rows of the key
    space get the same level-3 id if and only if their 16 values are equal.
  */
  lemma RowIdsAgree(raw: map<nat, string>, defaultValue: string, n: nat, t: Tables, s1: nat, j1: nat, s2: nat, j2: nat)
    requires Build(raw, defaultValue, n, [], [], []) == Some(t)
    requires s1 < n && s2 < n && j1 < GroupLength && j2 < GroupLength
    ensures |t.level1| == n
    ensures GroupLength * t.level1[s1] + j1 < |t.groups.data| && GroupLength * t.level1[s2] + j2 < |t.groups.data|
    ensures RowIdOf(t, s1, j1) == RowIdOf(t, s2, j2)
      <==> Row(raw, defaultValue, 256 * s1 + RowLength * j1) == Row(raw, defaultValue, 256 * s2 + RowLength * j2)
  {
    BuildConsistent(raw, defaultValue, n, t);
    RowIdsAgreeWhenConsistent(raw, defaultValue, n, t, s1, j1, s2, j2);
  }

  lemma RowIdsAgreeWhenConsistent(raw: map<nat, string>, defaultValue: string, n: nat, t: Tables, s1: nat, j1: nat, s2: nat, j2: nat)
    requires Consistent(raw, defaultValue, n, t)
    requires s1 < n && s2 < n && j1 < GroupLength && j2 < GroupLength
    ensures GroupLength * t.level1[s1] + j1 < |t.groups.data| && GroupLength * t.level1[s2] + j2 < |t.groups.data|
    ensures RowIdOf(t, s1, j1) == RowIdOf(t, s2, j2)
      <==> Row(raw, defaultValue, 256 * s1 + RowLength * j1) == Row(raw, defaultValue, 256 * s2 + RowLength * j2)
  {
    var g1, g2 := t.level1[s1], t.level1[s2];
    assert GroupAt(raw, defaultValue, s1, g1, t) && GroupAt(raw, defaultValue, s2, g2, t);
    var ids1, ids2 := Block(t.groups.data, g1), Block(t.groups.data, g2);
    assert ids1[j1] == RowIdOf(t, s1, j1) && ids2[j2] == RowIdOf(t, s2, j2);
    RowIdsMatchRows(raw, defaultValue, s1, j1, ids1[j1], s2, j2, ids2[j2], t.rows);
  }

  /** In a well-interned level-3 table, two resolving row ids are equal exactly when their rows are. */
  lemma RowIdsMatchRows(raw: map<nat, string>, defaultValue: string, s1: nat, j1: nat, id1: nat, s2: nat, j2: nat, id2: nat, rows: Pool<string>)
    requires WellInterned(rows, ElementOffset, MaxRowId)
    requires RowAt(raw, defaultValue, s1, j1, id1, rows.data) && RowAt(raw, defaultValue, s2, j2, id2, rows.data)
    ensures id1 == id2 <==> Row(raw, defaultValue, 256 * s1 + RowLength * j1) == Row(raw, defaultValue, 256 * s2 + RowLength * j2)
  {
    WellInternedBlocksDistinct(rows, ElementOffset, MaxRowId, id1 / RowLength, id2 / RowLength);
  }

  /** The 256 effective values of super-block `s`. */
  function SuperBlockValues(raw: map<nat, string>, defaultValue: string, s: nat): seq<string>
  {
    seq(256, k requires 0 <= k < 256 => ValueAt(raw, defaultValue, 256 * s + k))
  }

  lemma SuperBlockRows(raw: map<nat, string>, defaultValue: string, s1: nat, s2: nat)
    ensures SuperBlockValues(raw, defaultValue, s1) == SuperBlockValues(raw, defaultValue, s2)
      <==> forall j | 0 <= j < GroupLength :: Row(raw, defaultValue, 256 * s1 + RowLength * j) == Row(raw, defaultValue, 256 * s2 + RowLength * j)
  {
    var v1, v2 := SuperBlockValues(raw, defaultValue, s1), SuperBlockValues(raw, defaultValue, s2);
    if forall j | 0 <= j < GroupLength :: Row(raw, defaultValue, 256 * s1 + RowLength * j) == Row(raw, defaultValue, 256 * s2 + RowLength * j) {
      forall k | 0 <= k < 256
        ensures v1[k] == v2[k]
      {
        var j, col := k / RowLength, k % RowLength;
        assert Row(raw, defaultValue, 256 * s1 + RowLength * j)[col] == Row(raw, defaultValue, 256 * s2 + RowLength * j)[col];
      }
    }
    if v1 == v2 {
      forall j | 0 <= j < GroupLength
        ensures Row(raw, defaultValue, 256 * s1 + RowLength * j) == Row(raw, defaultValue, 256 * s2 + RowLength * j)
      {
        var r1, r2 := Row(raw, defaultValue, 256 * s1 + RowLength * j), Row(raw, defaultValue, 256 * s2 + RowLength * j);
        forall col | 0 <= col < RowLength
          ensures r1[col] == r2[col]
        {
          assert v1[RowLength * j + col] == v2[RowLength * j + col];
        }
      }
    }
  }

  /**
    Groups are shared exactly when their super-blocks agree: two super-blocks
    get the same level-1 entry if and only if their 256 values are equal.
  */
  lemma GroupIdsAgree(raw: map<nat, string>, defaultValue: string, n: nat, t: Tables, s1: nat, s2: nat)
    requires Build(raw, defaultValue, n, [], [], []) == Some(t)
    requires s1 < n && s2 < n
    ensures |t.level1| == n
    ensures t.level1[s1] == t.level1[s2] <==> SuperBlockValues(raw, defaultValue, s1) == SuperBlockValues(raw, defaultValue, s2)
  {
    BuildConsistent(raw, defaultValue, n, t);
    SuperBlockRows(raw, defaultValue, s1, s2);
    GroupIdsAgreeWhenConsistent(raw, defaultValue, n, t, s1, s2);
  }

  lemma GroupIdsAgreeWhenConsistent(raw: map<nat, string>, defaultValue: string, n: nat, t: Tables, s1: nat, s2: nat)
    requires Consistent(raw, defaultValue, n, t)
    requires s1 < n && s2 < n
    ensures t.level1[s1] == t.level1[s2]
      <==> forall j | 0 <= j < GroupLength :: Row(raw, defaultValue, 256 * s1 + RowLength * j) == Row(raw, defaultValue, 256 * s2 + RowLength * j)
  {
    assert GroupAt(raw, defaultValue, s1, t.level1[s1], t) && GroupAt(raw, defaultValue, s2, t.level1[s2], t);
    GroupIdsMatchRows(raw, defaultValue, s1, t.level1[s1], s2, t.level1[s2], t);
  }

  /** Two resolving group ids are equal exactly when their super-blocks have the same 16 rows. */
  lemma GroupIdsMatchRows(raw: map<nat, string>, defaultValue: string, s1: nat, g1: nat, s2: nat, g2: nat, t: Tables)
    requires WellInterned(t.rows, ElementOffset, MaxRowId) && WellInterned(t.groups, BlockNumber, MaxGroupId)
    requires GroupAt(raw, defaultValue, s1, g1, t) && GroupAt(raw, defaultValue, s2, g2, t)
    ensures g1 == g2
      <==> forall j | 0 <= j < GroupLength :: Row(raw, defaultValue, 256 * s1 + RowLength * j) == Row(raw, defaultValue, 256 * s2 + RowLength * j)
  {
    var ids1, ids2 := Block(t.groups.data, g1), Block(t.groups.data, g2);
    forall j | 0 <= j < GroupLength
      ensures ids1[j] == ids2[j]
        <==> Row(raw, defaultValue, 256 * s1 + RowLength * j) == Row(raw, defaultValue, 256 * s2 + RowLength * j)
    {
      assert RowAt(raw, defaultValue, s1, j, ids1[j], t.rows.data) && RowAt(raw, defaultValue, s2, j, ids2[j], t.rows.data);
      RowIdsMatchRows(raw, defaultValue, s1, j, ids1[j], s2, j, ids2[j], t.rows);
    }
    WellInternedBlocksDistinct(t.groups, BlockNumber, MaxGroupId, g1, g2);
    if forall j | 0 <= j < GroupLength :: Row(raw, defaultValue, 256 * s1 + RowLength * j) == Row(raw, defaultValue, 256 * s2 + RowLength * j) {
      assert forall j | 0 <= j < GroupLength :: ids1[j] == ids2[j];
      assert ids1 == ids2;
    } else {
      var j :| 0 <= j < GroupLength && Row(raw, defaultValue, 256 * s1 + RowLength * j) != Row(raw, defaultValue, 256 * s2 + RowLength * j);
      assert ids1[j] != ids2[j];
    }
  }

  // ----- An empty value store -----

  /** `len` copies of `x`. */
  function Repeat<T>(x: T, len: nat): (r: seq<T>)
    ensures |r| == len && forall i | 0 <= i < len :: r[i] == x
  {
    seq(len, _ => x)
  }

  lemma EmptyRow(defaultValue: string, base: nat)
    ensures Row(map[], defaultValue, base) == Repeat(defaultValue, RowLength)
  {
    var r := Row(map[], defaultValue, base);
    forall k | 0 <= k < RowLength
      ensures r[k] == defaultValue
    {
      assert r[k] == ValueAt(map[], defaultValue, base + k);
    }
  }

  /** Once the all-default row is interned, every remaining row of an empty store reuses id 0. */
  lemma {:induction false} EmptyRowsReuse(defaultValue: string, sb: nat, j: nat, ids: seq<nat>)
    requires j <= GroupLength
    ensures
      var d := Repeat(defaultValue, RowLength);
      InternRows(map[], defaultValue, sb, j, Pool(d, map[d := 0]), ids) == Some((Pool(d, map[d := 0]), ids + Repeat<nat>(0, GroupLength - j)))
    decreases GroupLength - j
  {
    var d := Repeat(defaultValue, RowLength);
    if j < GroupLength {
      EmptyRow(defaultValue, 256 * sb + RowLength * j);
      EmptyRowsReuse(defaultValue, sb, j + 1, ids + [0]);
      assert ids + [0] + Repeat<nat>(0, GroupLength - (j + 1)) == ids + Repeat<nat>(0, GroupLength - j);
    } else {
      assert ids + Repeat<nat>(0, 0) == ids;
    }
  }

  /** Every super-block of an empty store after the first one reuses row id 0 and group id 0. */
  lemma EmptySuperBlock(defaultValue: string, sb: nat, t: Tables)
    requires t.rows == Pool(Repeat(defaultValue, RowLength), map[Repeat(defaultValue, RowLength) := 0])
    requires t.groups == Pool(Repeat<nat>(0, GroupLength), map[Repeat<nat>(0, GroupLength) := 0])
    ensures SuperBlock(map[], defaultValue, sb, t) == Some(t.(level1 := t.level1 + [0]))
  {
    var z := Repeat<nat>(0, GroupLength);
    EmptyRowsReuse(defaultValue, sb, 0, []);
    assert [] + z == z;
    SuperBlockStep(map[], defaultValue, sb, t, t.rows, z, t.groups, 0);
  }

  /** The first super-block of an empty store interns the all-default row and the all-zero group. */
  lemma EmptyFirstSuperBlock(defaultValue: string)
    ensures
      var d, z := Repeat(defaultValue, RowLength), Repeat<nat>(0, GroupLength);
      SuperBlock(map[], defaultValue, 0, Start([], [], [])) == Some(Tables([0], Pool(z, map[z := 0]), Pool(d, map[d := 0])))
  {
    var d, z := Repeat(defaultValue, RowLength), Repeat<nat>(0, GroupLength);
    var noRows: Pool<string> := Pool([], map[]);
    var noGroups: Pool<nat> := Pool([], map[]);
    var rows, groups := Pool(d, map[d := 0]), Pool(z, map[z := 0]);
    EmptyRow(defaultValue, 0);
    assert [] + d == d;
    assert Intern(noRows, d, 0, MaxRowId) == Some((rows, 0));
    InternRowsStep(map[], defaultValue, 0, 0, noRows, [], rows, 0);
    assert [] + [0] == [0];
    EmptyRowsReuse(defaultValue, 0, 1, [0]);
    assert [0] + Repeat<nat>(0, GroupLength - 1) == z;
    assert [] + z == z;
    assert Intern(noGroups, z, 0, MaxGroupId) == Some((groups, 0));
    SuperBlockStep(map[], defaultValue, 0, Start([], [], []), rows, z, groups, 0);
  }

  lemma {:induction false} EmptyBuildFrom(defaultValue: string, i: nat, n: nat)
    requires i <= n
    ensures
      var d, z := Repeat(defaultValue, RowLength), Repeat<nat>(0, GroupLength);
      BuildFrom(map[], defaultValue, i, n, Tables(Repeat<nat>(0, i), Pool(z, map[z := 0]), Pool(d, map[d := 0])))
        == Some(Tables(Repeat<nat>(0, n), Pool(z, map[z := 0]), Pool(d, map[d := 0])))
    decreases n - i
  {
    var d, z := Repeat(defaultValue, RowLength), Repeat<nat>(0, GroupLength);
    if i < n {
      EmptySuperBlock(defaultValue, i, Tables(Repeat<nat>(0, i), Pool(z, map[z := 0]), Pool(d, map[d := 0])));
      assert Repeat<nat>(0, i) + [0] == Repeat<nat>(0, i + 1);
      EmptyBuildFrom(defaultValue, i + 1, n);
    }
  }

  /**
    An empty value store produces exactly one distinct row (all default
    values, id 0), exactly one distinct group (all row ids 0) and a level-1
    table of zeros, one per super-block.
  */
  lemma EmptyStoreSingleBlocks(defaultValue: string, n: nat)
    requires n >= 1
    ensures
      var d, z := Repeat(defaultValue, RowLength), Repeat<nat>(0, GroupLength);
      Build(map[], defaultValue, n, [], [], []) == Some(Tables(Repeat<nat>(0, n), Pool(z, map[z := 0]), Pool(d, map[d := 0])))
  {
    EmptyFirstSuperBlock(defaultValue);
    EmptyBuildFrom(defaultValue, 1, n);
    assert Repeat<nat>(0, 1) == [0];
  }

  /** Row number `a` of the key space, counted from 0 (key `RowLength * a` onwards). */
  function NthRow(raw: map<nat, string>, defaultValue: string, a: nat): seq<string>
  {
    Row(raw, defaultValue, RowLength * a)
  }

  /** A sequence of pairwise distinct numbers below `m` has at most `m` elements. */
  lemma {:induction false} DistinctBelow(xs: seq<nat>, m: nat)
    requires forall k | 0 <= k < |xs| :: xs[k] < m
    requires forall a, b | 0 <= a < b < |xs| :: xs[a] != xs[b]
    ensures |xs| <= m
    decreases m
  {
    if |xs| > 0 {
      assert 0 < m by { assert xs[0] < m; }
      if p :| 0 <= p < |xs| && xs[p] == m - 1 {
        var ys := xs[..p] + xs[p + 1..];
        assert |ys| == |xs| - 1;
        forall k | 0 <= k < |ys|
          ensures ys[k] < m - 1
        {
          if k < p { assert ys[k] == xs[k]; } else { assert ys[k] == xs[k + 1]; }
        }
        forall a, b | 0 <= a < b < |ys|
          ensures ys[a] != ys[b]
        {
          var a', b' := if a < p then a else a + 1, if b < p then b else b + 1;
          assert ys[a] == xs[a'] && ys[b] == xs[b'] && a' < b';
        }
        DistinctBelow(ys, m - 1);
      } else {
        DistinctBelow(xs, m - 1);
      }
    }
  }

  lemma RowOfRowNumber(a: nat)
    ensures 256 * (a / GroupLength) + RowLength * (a % GroupLength) == RowLength * a
  {
  }

  /**
    Level-3 overflow: a build that succeeds has stored every distinct row of
    the key space once, at an element offset that fits 16 bits, so the key
    space holds at most 4096 pairwise distinct rows. More distinct rows than
    that make the build fail.
  */
  lemma DistinctRowsFit(raw: map<nat, string>, defaultValue: string, n: nat, rowNumbers: seq<nat>)
    requires forall k | 0 <= k < |rowNumbers| :: rowNumbers[k] < GroupLength * n
    requires forall a, b | 0 <= a < b < |rowNumbers| ::
      NthRow(raw, defaultValue, rowNumbers[a]) != NthRow(raw, defaultValue, rowNumbers[b])
    ensures Build(raw, defaultValue, n, [], [], []).Some? ==> |rowNumbers| <= (MaxRowId + 1) / RowLength
  {
    var result := Build(raw, defaultValue, n, [], [], []);
    if result.Some? {
      var t := result.value;
      BuildDeduplicates(raw, defaultValue, n, t);
      forall k | 0 <= k < |rowNumbers|
        ensures |t.level1| == n && rowNumbers[k] / GroupLength < n
        ensures GroupLength * t.level1[rowNumbers[k] / GroupLength] + rowNumbers[k] % GroupLength < |t.groups.data|
      {
        var a := rowNumbers[k];
        RowIdsAgree(raw, defaultValue, n, t, a / GroupLength, a % GroupLength, a / GroupLength, a % GroupLength);
      }
      var ids := seq(|rowNumbers|, k requires 0 <= k < |rowNumbers| =>
        RowIdOf(t, rowNumbers[k] / GroupLength, rowNumbers[k] % GroupLength) / RowLength);
      forall a, b | 0 <= a < b < |ids|
        ensures ids[a] != ids[b]
      {
        var x, y := rowNumbers[a], rowNumbers[b];
        RowIdsAgree(raw, defaultValue, n, t, x / GroupLength, x % GroupLength, y / GroupLength, y % GroupLength);
        RowOfRowNumber(x);
        RowOfRowNumber(y);
        assert NthRow(raw, defaultValue, x) != NthRow(raw, defaultValue, y);
      }
      DistinctBelow(ids, (MaxRowId + 1) / RowLength);
    }
  }

  /**
    Level-2 overflow: a build that succeeds gives every distinct super-block
    its own group number, which fits 8 bits, so the key space holds at most
    256 pairwise distinct super-blocks. More than that make the build fail.
  */
  lemma DistinctSuperBlocksFit(raw: map<nat, string>, defaultValue: string, n: nat, superBlocks: seq<nat>)
    requires forall k | 0 <= k < |superBlocks| :: superBlocks[k] < n
    requires forall a, b | 0 <= a < b < |superBlocks| ::
      SuperBlockValues(raw, defaultValue, superBlocks[a]) != SuperBlockValues(raw, defaultValue, superBlocks[b])
    ensures Build(raw, defaultValue, n, [], [], []).Some? ==> |superBlocks| <= MaxGroupId + 1
  {
    var result := Build(raw, defaultValue, n, [], [], []);
    if result.Some? {
      var t := result.value;
      BuildDeduplicates(raw, defaultValue, n, t);
      BuildResolves(raw, defaultValue, n, t);
      var ids := seq(|superBlocks|, k requires 0 <= k < |superBlocks| => t.level1[superBlocks[k]]);
      forall a, b | 0 <= a < b < |ids|
        ensures ids[a] != ids[b]
      {
        GroupIdsAgree(raw, defaultValue, n, t, superBlocks[a], superBlocks[b]);
      }
      DistinctBelow(ids, MaxGroupId + 1);
    }
  }
}
