/**
 * The in-memory row block of the storage engine: a fixed-stride byte buffer
 * holding up to `capacity` rows of `rowBytes` bytes each, a per-column offset
 * table into a row, a bookkeeping scan cursor (pos/limit) with a status byte,
 * and a binary search over the row indices that compares each probed row with
 * a key through an abstract three-way comparison.
 */
module RowBlocks {

  /** One byte of the row buffer. */
  newtype byte = x: int | 0 <= x < 256

  /** `size_t` on the 64-bit targets the engine is built for. */
  const SIZE_T_MODULUS: int := 0x1_0000_0000_0000_0000
  type SizeT = x: int | 0 <= x < SIZE_T_MODULUS

  /** `uint32_t`, the type of row counts and row indices. */
  const UINT32_MODULUS: int := 0x1_0000_0000

  /**
   * The status a block carries until a filter stage sets another one: the
   * `DEL_PARTIAL_SATISFIED` enumerator of `DelCondSatisfied` (olap_common.h,
   * which is not part of this model; its enumerators are 0, 1 and 2).
   */
  const DEL_PARTIAL_SATISFIED: byte := 2

  /** The two outcomes `finalize` distinguishes. */
  datatype OlapStatus = OlapSuccess | ErrInputParameterError

  /**
   * `RowCursor::cmp`: a three-way comparison of the bytes of one row with the
   * bytes of a key (negative: row < key, zero: equal, positive: row > key).
   * The cursor's own field-by-field logic is external; any total function
   * will do.
   */
  type Comparator = (seq<byte>, seq<byte>) -> int

  /** Which of its two questions `RowBlockComparator::_compare` answers. */
  datatype ComparatorEnum = ComparatorLess | ComparatorLarger

  /**
   * The offset table produced by the layout computation is well formed when
   * every field, laid out as "null byte | value bytes", lies inside one row.
   */
  predicate LayoutFits(rowBytes: nat, fieldOffsets: seq<nat>, fieldWidths: seq<nat>)
  {
    && |fieldOffsets| == |fieldWidths|
    && forall c :: 0 <= c < |fieldOffsets| ==> fieldOffsets[c] + 1 + fieldWidths[c] <= rowBytes
  }

  /** Adding one row to an offset adds one stride. */
  lemma MulStep(a: nat, w: nat)
    ensures (a + 1) * w == a * w + w
  {
  }

  /** Row `i` ends no later than row `j` begins whenever `i < j`. */
  lemma {:induction false} StrideMonotone(i: nat, j: nat, w: nat)
    requires i < j
    ensures i * w + w <= j * w
  {
    MulStep(j - 1, w);
    if i + 1 < j {
      StrideMonotone(i, j - 1, w);
    }
  }

  class RowBlock {
    /** `_capacity`: the largest number of rows the buffer holds, fixed at init. */
    const capacity: nat
    /** `_mem_row_bytes`: the stride of one row. */
    const rowBytes: nat
    /** `_field_offset_in_memory`: per column, the offset of its null byte in a row. */
    const fieldOffsets: seq<nat>
    /** The value width of each column, as the schema gives it (external). */
    const fieldWidths: seq<nat>
    /** `_mem_buf`: allocated once by init; `set_row` rewrites its bytes. */
    const buf: array<byte>
    /** `_info.row_num`: the number of valid rows. */
    var rowNum: nat
    /** `_pos` and `_limit`: the scan window [pos, limit). */
    var pos: SizeT
    var limit: SizeT
    /** `_block_status`. */
    var blockStatus: byte

    /** The object invariant: the buffer is `rowBytes * capacity` bytes long. */
    ghost predicate Valid()
      reads this
    {
      && buf.Length == rowBytes * capacity
      && rowNum <= capacity < UINT32_MODULUS
      && LayoutFits(rowBytes, fieldOffsets, fieldWidths)
    }

    /** The state right after init, which `clear` restores. */
    ghost predicate AfterInit()
      reads this
    {
      rowNum == capacity && pos == 0 && limit == 0 && blockStatus == DEL_PARTIAL_SATISFIED
    }

    /**
     * Construction followed by `init`: the layout is taken as computed, the
     * buffer as allocated with its stated size.
     */
    constructor Init(capacity: nat, rowBytes: nat, fieldOffsets: seq<nat>, fieldWidths: seq<nat>)
      requires capacity < UINT32_MODULUS
      requires LayoutFits(rowBytes, fieldOffsets, fieldWidths)
      ensures Valid() && AfterInit() && fresh(buf)
      ensures this.capacity == capacity && this.rowBytes == rowBytes
      ensures this.fieldOffsets == fieldOffsets && this.fieldWidths == fieldWidths
    {
      this.capacity := capacity;
      this.rowBytes := rowBytes;
      this.fieldOffsets := fieldOffsets;
      this.fieldWidths := fieldWidths;
      buf := new byte[rowBytes * capacity];
      rowNum := capacity;
      pos := 0;
      limit := 0;
      blockStatus := DEL_PARTIAL_SATISFIED;
    }

    /** The byte offset in the buffer at which `get_row` attaches its cursor. */
    function GetRow(rowIndex: nat): (offset: nat)
      reads this
      requires Valid() && rowIndex < capacity
      ensures offset == rowIndex * rowBytes
      ensures offset + rowBytes <= buf.Length
    {
      StrideMonotone(rowIndex, capacity, rowBytes);
      rowIndex * rowBytes
    }

    /** The bytes a cursor attached by `get_row` sees: one full stride. */
    function RowBytes(rowIndex: nat): (row: seq<byte>)
      reads this, buf
      requires Valid() && rowIndex < capacity
      ensures |row| == rowBytes
      ensures forall k :: 0 <= k < rowBytes ==> row[k] == buf[GetRow(rowIndex) + k]
    {
      var offset := GetRow(rowIndex);
      buf[offset..offset + rowBytes]
    }

    /** The strides of two different rows do not overlap. */
    lemma RowsDisjoint(i: nat, j: nat)
      requires Valid() && i < capacity && j < capacity && i != j
      ensures GetRow(i) + rowBytes <= GetRow(j) || GetRow(j) + rowBytes <= GetRow(i)
    {
      if i < j { StrideMonotone(i, j, rowBytes); } else { StrideMonotone(j, i, rowBytes); }
    }

    /**
     * `field_ptr`: the address of the null byte of column `col` in row `row`;
     * the column's value bytes follow it, and all of it lies in that row.
     */
    function FieldPtr(row: nat, col: nat): (addr: nat)
      reads this
      requires Valid() && row < capacity && col < |fieldOffsets|
      ensures addr == rowBytes * row + fieldOffsets[col]
      ensures GetRow(row) <= addr
      ensures addr + 1 + fieldWidths[col] <= GetRow(row) + rowBytes <= buf.Length
    {
      rowBytes * row + fieldOffsets[col]
    }

    /**
     * What `field_ptr` points at is what a cursor attached by `get_row` sees
     * at the column's offset: first the null byte, then the value bytes.
     */
    lemma FieldThroughRow(row: nat, col: nat)
      requires Valid() && row < capacity && col < |fieldOffsets|
      ensures buf[FieldPtr(row, col)] == RowBytes(row)[fieldOffsets[col]]
      ensures buf[FieldPtr(row, col) + 1..FieldPtr(row, col) + 1 + fieldWidths[col]]
           == RowBytes(row)[fieldOffsets[col] + 1..fieldOffsets[col] + 1 + fieldWidths[col]]
    {
      assert FieldPtr(row, col) == GetRow(row) + fieldOffsets[col];
    }

    /**
     * `set_row`: copy exactly one stride of bytes into slot `rowIndex`; every
     * other byte of the buffer keeps its value, so every other row does too.
     */
    method SetRow(rowIndex: nat, row: seq<byte>)
      requires Valid() && rowIndex < capacity && |row| == rowBytes
      modifies buf
      ensures RowBytes(rowIndex) == row
      ensures forall k :: 0 <= k < buf.Length && !(GetRow(rowIndex) <= k < GetRow(rowIndex) + rowBytes)
                ==> buf[k] == old(buf[k])
      ensures forall j :: 0 <= j < capacity && j != rowIndex ==> RowBytes(j) == old(RowBytes(j))
    {
      var base := GetRow(rowIndex);
      for k := 0 to rowBytes
        invariant forall m :: 0 <= m < k ==> buf[base + m] == row[m]
        invariant forall m :: 0 <= m < buf.Length && !(base <= m < base + k) ==> buf[m] == old(buf[m])
      {
        buf[base + k] := row[k];
      }
      assert RowBytes(rowIndex) == row;
      forall j | 0 <= j < capacity && j != rowIndex
        ensures RowBytes(j) == old(RowBytes(j))
      {
        RowsDisjoint(j, rowIndex);
      }
    }

    /**
     * `finalize`: fix the number of valid rows once the block is filled; a
     * count above the capacity is refused and changes nothing.
     */
    method Finalize(n: nat) returns (status: OlapStatus)
      requires Valid()
      modifies this`rowNum
      ensures Valid()
      ensures status == OlapSuccess <==> n <= capacity
      ensures rowNum == if n <= capacity then n else old(rowNum)
    {
      if n > capacity {
        return ErrInputParameterError;
      }
      rowNum := n;
      return OlapSuccess;
    }

    /** `clear`: back to the state right after init; the buffer is reused as it is. */
    method Clear()
      requires Valid()
      modifies this`rowNum, this`pos, this`limit, this`blockStatus
      ensures Valid() && AfterInit()
    {
      rowNum := capacity;
      pos := 0;
      limit := 0;
      blockStatus := DEL_PARTIAL_SATISFIED;
    }

    // The scan cursor. Its getters `pos()`, `limit()` and `block_status()`
    // are the fields themselves. The setters need no invariant: `Valid()` does
    // not mention `pos`, `limit` or `blockStatus`, so each setter keeps
    // `Valid()` exactly as it found it.

    /** `set_pos`: only `pos` changes. */
    method SetPos(p: SizeT)
      modifies this`pos
      ensures Valid() == old(Valid())
      ensures pos == p
    {
      pos := p;
    }

    /** `pos_inc`: `pos` grows by one (wrapping as a `size_t` does). */
    method PosInc()
      modifies this`pos
      ensures Valid() == old(Valid())
      ensures pos == (old(pos) + 1) % SIZE_T_MODULUS
      ensures old(pos) < limit ==> pos <= limit && Remaining() == old(Remaining()) - 1
    {
      pos := (pos + 1) % SIZE_T_MODULUS;
    }

    /** `set_limit`: only `limit` changes. */
    method SetLimit(l: SizeT)
      modifies this`limit
      ensures Valid() == old(Valid())
      ensures limit == l
    {
      limit := l;
    }

    /**
     * `remaining`: the unsigned difference `limit - pos`. While `pos <= limit`
     * it is the size of the window; past the limit it wraps around.
     */
    function Remaining(): (r: SizeT)
      reads this
      ensures pos <= limit ==> r == limit - pos
      ensures limit < pos ==> r == SIZE_T_MODULUS - (pos - limit)
    {
      (limit - pos) % SIZE_T_MODULUS
    }

    /**
     * `has_remaining`: whether the window is non-empty. While `pos <= limit`
     * that is the same as a non-zero `remaining`.
     */
    function HasRemaining(): (r: bool)
      reads this
      ensures r <==> pos < limit
      ensures pos <= limit ==> (r <==> Remaining() != 0)
    {
      pos < limit
    }

    /** `set_block_status`: `block_status()` then returns `s`; nothing else changes. */
    method SetBlockStatus(s: byte)
      modifies this`blockStatus
      ensures Valid() == old(Valid())
      ensures blockStatus == s
    {
      blockStatus := s;
    }

    // Binary search.

    /**
     * `RowBlockComparator::_compare`: attach the helper cursor to row `index`
     * and turn the cursor's three-way comparison into "less" or "larger".
     */
    function Compare(index: nat, key: seq<byte>, cmp: Comparator, which: ComparatorEnum): (r: bool)
      reads this, buf
      requires Valid() && index < capacity
      ensures var view := buf[GetRow(index)..GetRow(index) + rowBytes];
              r <==> if which == ComparatorLess then cmp(view, key) < 0 else cmp(view, key) > 0
    {
      var c := cmp(RowBytes(index), key);
      if which == ComparatorLess then c < 0 else c > 0
    }

    /** The comparator's `(index, key)` form, used by the lower-bound search. */
    function Less(index: nat, key: seq<byte>, cmp: Comparator): (r: bool)
      reads this, buf
      requires Valid() && index < capacity
      ensures r <==> cmp(RowBytes(index), key) < 0
    {
      Compare(index, key, cmp, ComparatorLess)
    }

    /** The comparator's `(key, index)` form, used by the upper-bound search. */
    function Larger(key: seq<byte>, index: nat, cmp: Comparator): (r: bool)
      reads this, buf
      requires Valid() && index < capacity
      ensures r <==> cmp(RowBytes(index), key) > 0
    {
      Compare(index, key, cmp, ComparatorLarger)
    }

    /**
     * Row `i` lies before the index `find_row` looks for: strictly less than
     * the key for the lower bound, not greater than it for the upper bound.
     */
    ghost predicate Precedes(i: nat, key: seq<byte>, cmp: Comparator, findLast: bool)
      reads this, buf
      requires Valid() && i < capacity
    {
      if findLast then cmp(RowBytes(i), key) <= 0 else cmp(RowBytes(i), key) < 0
    }

    /**
     * What a binary search needs of rows [0, rowNum): the rows that precede
     * the answer form a prefix.
     */
    ghost predicate Partitioned(key: seq<byte>, cmp: Comparator, findLast: bool)
      reads this, buf
      requires Valid()
    {
      forall i, j :: 0 <= i <= j < rowNum && Precedes(j, key, cmp, findLast) ==> Precedes(i, key, cmp, findLast)
    }

    /** Rows [0, rowNum) are in ascending order relative to `key`. */
    ghost predicate SortedAgainst(key: seq<byte>, cmp: Comparator)
      reads this, buf
      requires Valid()
    {
      forall i, j :: 0 <= i <= j < rowNum ==> Sign(cmp(RowBytes(i), key)) <= Sign(cmp(RowBytes(j), key))
    }

    /** `r` splits rows [0, rowNum) into those that precede it and those that do not. */
    ghost predicate IsBound(r: nat, key: seq<byte>, cmp: Comparator, findLast: bool)
      reads this, buf
      requires Valid()
    {
      && r <= rowNum
      && (forall i :: 0 <= i < r ==> Precedes(i, key, cmp, findLast))
      && (forall i :: r <= i < rowNum ==> !Precedes(i, key, cmp, findLast))
    }

    /** The number of rows among the first `n` that precede the answer. */
    ghost function CountPreceding(n: nat, key: seq<byte>, cmp: Comparator, findLast: bool): nat
      reads this, buf
      requires Valid() && n <= rowNum
    {
      if n == 0 then 0
      else CountPreceding(n - 1, key, cmp, findLast) + (if Precedes(n - 1, key, cmp, findLast) then 1 else 0)
    }

    /** Rows sorted against the key are partitioned for both searches. */
    lemma SortedIsPartitioned(key: seq<byte>, cmp: Comparator, findLast: bool)
      requires Valid() && SortedAgainst(key, cmp)
      ensures Partitioned(key, cmp, findLast)
    {
      forall i, j | 0 <= i <= j < rowNum && Precedes(j, key, cmp, findLast)
        ensures Precedes(i, key, cmp, findLast)
      {
        assert Sign(cmp(RowBytes(i), key)) <= Sign(cmp(RowBytes(j), key));
      }
    }

    /** A bound counts the rows that precede it, over every prefix of the rows. */
    lemma {:induction false} BoundCountsPrefix(r: nat, key: seq<byte>, cmp: Comparator, findLast: bool, n: nat)
      requires Valid() && IsBound(r, key, cmp, findLast) && n <= rowNum
      ensures CountPreceding(n, key, cmp, findLast) == if n <= r then n else r
    {
      if n > 0 {
        BoundCountsPrefix(r, key, cmp, findLast, n - 1);
        assert Precedes(n - 1, key, cmp, findLast) <==> n - 1 < r;
      }
    }

    /**
     * The lower bound is the number of rows less than the key, the upper bound
     * the number of rows not greater than it; so each bound is unique.
     */
    lemma BoundIsCount(r: nat, key: seq<byte>, cmp: Comparator, findLast: bool)
      requires Valid() && IsBound(r, key, cmp, findLast)
      ensures r == CountPreceding(rowNum, key, cmp, findLast)
    {
      BoundCountsPrefix(r, key, cmp, findLast, rowNum);
    }

    /** There is one bound at most. */
    lemma BoundIsUnique(r1: nat, r2: nat, key: seq<byte>, cmp: Comparator, findLast: bool)
      requires Valid() && IsBound(r1, key, cmp, findLast) && IsBound(r2, key, cmp, findLast)
      ensures r1 == r2
    {
      BoundIsCount(r1, key, cmp, findLast);
      BoundIsCount(r2, key, cmp, findLast);
    }

    /** Rows that have a bound are partitioned, so the search finds it. */
    lemma BoundMeansPartitioned(r: nat, key: seq<byte>, cmp: Comparator, findLast: bool)
      requires Valid() && IsBound(r, key, cmp, findLast)
      ensures Partitioned(key, cmp, findLast)
    {
    }

    /** The lower bound never exceeds the upper bound. */
    lemma LowerAtMostUpper(lower: nat, upper: nat, key: seq<byte>, cmp: Comparator)
      requires Valid() && IsBound(lower, key, cmp, false) && IsBound(upper, key, cmp, true)
      ensures lower <= upper
    {
      if upper < rowNum {
        assert !Precedes(upper, key, cmp, true);
        assert !Precedes(upper, key, cmp, false);
      }
    }

    /**
     * `find_row`: binary search over the row indices [0, rowNum). Without
     * `findLast` it yields the lower bound, the first row not less than the
     * key; with it the upper bound, the first row greater than the key. The
     * result is `rowNum` when no row qualifies, 0 on an empty block.
     */
    method FindRow(key: seq<byte>, cmp: Comparator, findLast: bool) returns (rowIndex: nat)
      requires Valid()
      ensures rowIndex <= rowNum
      ensures Partitioned(key, cmp, findLast) && !findLast ==>
                && (forall i :: 0 <= i < rowIndex ==> cmp(RowBytes(i), key) < 0)
                && (forall i :: rowIndex <= i < rowNum ==> cmp(RowBytes(i), key) >= 0)
      ensures Partitioned(key, cmp, findLast) && findLast ==>
                && (forall i :: 0 <= i < rowIndex ==> cmp(RowBytes(i), key) <= 0)
                && (forall i :: rowIndex <= i < rowNum ==> cmp(RowBytes(i), key) > 0)
      ensures Partitioned(key, cmp, findLast) ==>
                && IsBound(rowIndex, key, cmp, findLast)
                && rowIndex == CountPreceding(rowNum, key, cmp, findLast)
    {
      ghost var partitioned := Partitioned(key, cmp, findLast);
      var lo, hi := 0, rowNum;
      while lo < hi
        invariant 0 <= lo <= hi <= rowNum
        invariant partitioned ==> forall i :: 0 <= i < lo ==> Precedes(i, key, cmp, findLast)
        invariant partitioned ==> forall i :: hi <= i < rowNum ==> !Precedes(i, key, cmp, findLast)
      {
        var mid := lo + (hi - lo) / 2;
        var before := if findLast then !Larger(key, mid, cmp) else Less(mid, key, cmp);
        assert before == Precedes(mid, key, cmp, findLast);
        if before {
          lo := mid + 1;
        } else {
          hi := mid;
        }
      }
      rowIndex := lo;
      if partitioned {
        forall i | 0 <= i < rowNum
          ensures Precedes(i, key, cmp, findLast) <==> if findLast then cmp(RowBytes(i), key) <= 0 else cmp(RowBytes(i), key) < 0
        {
        }
        BoundIsCount(rowIndex, key, cmp, findLast);
      }
    }
  }

  /**
   * A two-byte row holding one key column: its null byte, then its value.
   * The comparison orders rows by that value byte.
   */
  function KeyRow(v: byte): (row: seq<byte>)
  {
    [0, v]
  }

  function CompareKeyByte(row: seq<byte>, key: seq<byte>): int
  {
    if |row| == 2 && |key| == 2 then row[1] as int - key[1] as int else 0
  }

  /** Rows [0, |keys|) of `block` are the valid rows, holding `keys` in order. */
  ghost predicate HoldsKeys(block: RowBlock, keys: seq<byte>)
    reads block, block.buf
  {
    && block.Valid()
    && block.rowNum == |keys| <= block.capacity
    && block.rowBytes == 2
    && forall i :: 0 <= i < |keys| ==> block.RowBytes(i) == KeyRow(keys[i])
  }

  /** Fill and finalize a block of four rows with the keys 10, 20, 20, 30. */
  method ExampleBlock() returns (block: RowBlock)
    ensures fresh(block.buf) && HoldsKeys(block, [10, 20, 20, 30])
  {
    block := new RowBlock.Init(4, 2, [0], [1]);
    block.SetRow(0, KeyRow(10));
    block.SetRow(1, KeyRow(20));
    assert block.RowBytes(0) == KeyRow(10);
    block.SetRow(2, KeyRow(20));
    assert block.RowBytes(0) == KeyRow(10) && block.RowBytes(1) == KeyRow(20);
    block.SetRow(3, KeyRow(30));
    assert block.RowBytes(0) == KeyRow(10) && block.RowBytes(1) == KeyRow(20) && block.RowBytes(2) == KeyRow(20);
    var status := block.Finalize(4);
  }

  /** Where the bounds of 20, 5 and 99 lie among the keys 10, 20, 20, 30. */
  lemma ExampleBounds(block: RowBlock)
    requires HoldsKeys(block, [10, 20, 20, 30])
    ensures block.IsBound(1, KeyRow(20), CompareKeyByte, false)
    ensures block.IsBound(3, KeyRow(20), CompareKeyByte, true)
    ensures block.IsBound(0, KeyRow(5), CompareKeyByte, false)
    ensures block.IsBound(4, KeyRow(99), CompareKeyByte, false)
  {
    assert block.RowBytes(0) == KeyRow(10) && block.RowBytes(1) == KeyRow(20);
    assert block.RowBytes(2) == KeyRow(20) && block.RowBytes(3) == KeyRow(30);
  }

  /** Searching rows that have the bound `expected` finds exactly that bound. */
  method SearchForKnownBound(block: RowBlock, key: seq<byte>, findLast: bool, ghost expected: nat)
    returns (r: nat)
    requires block.Valid() && block.IsBound(expected, key, CompareKeyByte, findLast)
    ensures r == expected
  {
    block.BoundMeansPartitioned(expected, key, CompareKeyByte, findLast);
    r := block.FindRow(key, CompareKeyByte, findLast);
    block.BoundIsUnique(r, expected, key, CompareKeyByte, findLast);
  }

  /**
   * Keys 10, 20, 20, 30 in a block of four rows: the lower bound of 20 is 1,
   * its upper bound 3; the lower bound of 5 is 0, that of 99 is the row count.
   */
  method FindRowExample() returns (lower20: nat, upper20: nat, lower5: nat, lower99: nat)
    ensures lower20 == 1 && upper20 == 3 && lower5 == 0 && lower99 == 4
  {
    var block := ExampleBlock();
    ExampleBounds(block);
    lower20 := SearchForKnownBound(block, KeyRow(20), false, 1);
    upper20 := SearchForKnownBound(block, KeyRow(20), true, 3);
    lower5 := SearchForKnownBound(block, KeyRow(5), false, 0);
    lower99 := SearchForKnownBound(block, KeyRow(99), false, 4);
  }

  /**
   * Draining a window of two rows with four `pos_inc`: the window is empty
   * after the second step, and past the limit `remaining` wraps around.
   */
  method CursorDrainExample() returns (afterTwo: SizeT, hasAfterTwo: bool, afterFour: SizeT)
    ensures afterTwo == 0 && !hasAfterTwo
    ensures afterFour == SIZE_T_MODULUS - 2
  {
    var block := new RowBlock.Init(4, 2, [0], [1]);
    var status := block.Finalize(4);
    block.SetLimit(2);
    block.PosInc();
    block.PosInc();
    afterTwo, hasAfterTwo := block.Remaining(), block.HasRemaining();
    block.PosInc();
    block.PosInc();
    afterFour := block.Remaining();
  }

  /**
   * Reusing a block: `clear` and then `finalize(k)` leave exactly `k` rows,
   * whatever the previous fill cycle left behind; a `k` above the capacity is
   * refused and leaves the row count `clear` restored. The cursor window is
   * the one `clear` restores, since `finalize` does not touch it.
   */
  method ClearThenFinalize(block: RowBlock, k: nat) returns (status: OlapStatus)
    requires block.Valid()
    modifies block
    ensures block.Valid() && (status == OlapSuccess <==> k <= block.capacity)
    ensures block.rowNum == if k <= block.capacity then k else block.capacity
    ensures block.pos == 0 && block.limit == 0
    ensures block.blockStatus == DEL_PARTIAL_SATISFIED
    ensures block.buf[..] == old(block.buf[..])
  {
    block.Clear();
    status := block.Finalize(k);
  }

  /** The sign of a three-way comparison result. */
  function Sign(c: int): (s: int)
    ensures -1 <= s <= 1
    ensures (s < 0 <==> c < 0) && (s == 0 <==> c == 0)
  {
    if c < 0 then -1 else if c == 0 then 0 else 1
  }
}
