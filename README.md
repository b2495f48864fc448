# Row block and aggregate-type table, modelled in Dafny

This project models two parts of an analytical database:

- The back end's `RowBlock` (`row_block.dfy`, module `RowBlocks`). It is a batch of decoded rows kept in a fixed-stride byte buffer: `capacity` rows of `rowBytes` bytes each. A per-column table gives the offset of each field inside a row. A field is laid out as a null byte followed by its value bytes.
- The block also has a bookkeeping scan cursor (`pos`, `limit`) and a status byte.
- `find_row` is a binary search over the row indices. For each probed index, a comparator adapter attaches a helper cursor to that row and turns the cursor's three-way comparison with the key into "less" or "larger".
- The front end's `AggregateType` enum (`aggregate_type.dfy`, modules `AggregateTypes` and `AggregationThrift`). Its static initialiser builds a table of which primitive column types each aggregate kind (SUM, MIN, MAX, REPLACE, HLL_UNION, NONE, BITMAP_UNION) accepts. The enum also has the SQL name and the Thrift constant of each kind.

How the model is built:

- The block is a class. Its buffer is a `byte` array whose length is `rowBytes * capacity`.
- Methods update the buffer in place: `SetRow` copies byte by byte. Other methods update the fields (`SetPos`, `PosInc`, `SetLimit`, `SetBlockStatus`, `Finalize`, `Clear`).
- Address computations and cursor reads are functions.
- `RowCursor::cmp` is a parameter: any total function from a row's bytes and a key's bytes to an `int`.
- `pos` and `limit` are `size_t` values below 2^64. `pos_inc` and `remaining` wrap around exactly as unsigned arithmetic does.

The bodies of `init`, `finalize`, `clear` and `find_row` are only declared in `be/src/olap/row_block.h`. They are modelled from the comments that document them, and where a comment is silent, from what the buffer allows:

- `find_row` returns the lower bound when `find_last` is false and the upper bound when it is true.
- `finalize` fixes the row count (the comment at row_block.h:78 says only that it is called once the block is filled). The refusal of a count above the capacity is an assumption of the model, listed under "## Left out".
- `clear` restores the state right after init: the row count goes back to the capacity, `pos` and `limit` to 0, and the status to `DEL_PARTIAL_SATISFIED`. The buffer is reused without change.
- `finalize` changes nothing except the row count. In particular it does not reset `pos` or `limit`: the header gives it no such effect.

`DEL_PARTIAL_SATISFIED` is taken as 2, its value in the `DelCondSatisfied` enumeration. That enumeration is in olap_common.h, which is not part of this model.

## Model

| member | source | states |
|---|---|---|
| `RowBlocks.RowBlock.Init` | be/src/olap/row_block.h:59-67 | A constructed and initialised block has the object invariant. Its buffer is `rowBytes * capacity` bytes. Its row count is the capacity, `pos` and `limit` are 0, and its status is `DEL_PARTIAL_SATISFIED`. |
| `RowBlocks.RowBlock.GetRow` | be/src/olap/row_block.h:69-71 | `get_row(i)` attaches the cursor at byte offset exactly `i * rowBytes`. For `i < capacity`, that offset plus one stride stays inside the buffer. |
| `RowBlocks.RowBlock.RowBytes` | be/src/olap/row_block.h:165-170 | The view a cursor attached to row `i` sees is one stride long. Byte `k` of the view is buffer byte `i * rowBytes + k`. |
| `RowBlocks.RowBlock.RowsDisjoint` | be/src/olap/row_block.h:165-170 | The strides of two different rows do not overlap. |
| `RowBlocks.RowBlock.SetRow` | be/src/olap/row_block.h:73-76 | `set_row(i, r)` writes `r` into slot `i`, so a later `get_row(i)` sees exactly `r`. Every byte outside `[i*rowBytes, (i+1)*rowBytes)` keeps its value, and so every other row is unchanged. |
| `RowBlocks.RowBlock.FieldPtr` | be/src/olap/row_block.h:93-97 | `field_ptr(row, col)` is `rowBytes * row + offset[col]`. That address (the null byte) and the value bytes after it lie inside row `row`'s stride and inside the buffer. |
| `RowBlocks.RowBlock.FieldThroughRow` | be/src/olap/row_block.h:93-97 | The null byte at `field_ptr(row, col)` and the value bytes after it are the bytes at the column's offset in row `row`'s cursor view. |
| `RowBlocks.RowBlock.Finalize` | be/src/olap/row_block.h:78-79 | A count no larger than the capacity succeeds and becomes the row count. A larger count fails and changes nothing. The invariant is kept either way. |
| `RowBlocks.RowBlock.Clear` | be/src/olap/row_block.h:103-104 | After `clear` the block is in the same state as right after init. |
| `RowBlocks.RowBlock.SetPos` | be/src/olap/row_block.h:107 | `pos` becomes the argument. Only `pos` may change. |
| `RowBlocks.RowBlock.PosInc` | be/src/olap/row_block.h:108 | `pos` grows by one, modulo 2^64. Inside the window, `pos` stays within the limit and `remaining` drops by exactly one. Only `pos` may change. |
| `RowBlocks.RowBlock.SetLimit` | be/src/olap/row_block.h:110 | `limit` becomes the argument. Only `limit` may change. |
| `RowBlocks.RowBlock.Remaining` | be/src/olap/row_block.h:111 | When `pos <= limit`, `remaining()` equals `limit - pos`. Otherwise the unsigned subtraction wraps to `2^64 - (pos - limit)`. |
| `RowBlocks.RowBlock.HasRemaining` | be/src/olap/row_block.h:112 | `has_remaining()` holds iff `pos < limit`. When `pos <= limit`, that is the same as `remaining() != 0`. |
| `RowBlocks.RowBlock.SetBlockStatus` | be/src/olap/row_block.h:113-114 | `block_status()` afterwards returns the status that was set. Only the status may change. |
| `RowBlocks.RowBlock.Compare` | be/src/olap/row_block.h:137-146 | `_compare` compares the row view that `get_row(index)` attaches, the stride starting at `index * rowBytes`, with the key. With `COMPARATOR_LESS` it is true iff `cmp` is negative; otherwise it is true iff `cmp` is positive. |
| `RowBlocks.RowBlock.Less` | be/src/olap/row_block.h:127-130 | The comparator's `(index, key)` form goes through `_compare` with `COMPARATOR_LESS`. It is true iff `cmp(row[index], key) < 0`. |
| `RowBlocks.RowBlock.Larger` | be/src/olap/row_block.h:131-134 | The comparator's `(key, index)` form goes through `_compare` with `COMPARATOR_LARGER`. It is true iff `cmp(row[index], key) > 0`. |
| `RowBlocks.RowBlock.FindRow` | be/src/olap/row_block.h:81-86 | The result always lies in `[0, rowNum]`. When the rows are partitioned with respect to the key, two things hold. Without `find_last`, every row before the result is less than the key and every row from the result on is not (the lower bound). With `find_last`, every row before the result is not greater than the key and every row from the result on is greater (the upper bound). The result also equals the number of rows in front of it. |
| `RowBlocks.RowBlock.SortedIsPartitioned` | be/src/olap/row_block.h:81-86 | Rows in ascending order with respect to the key are partitioned for both searches. |
| `RowBlocks.RowBlock.BoundCountsPrefix` | be/src/olap/row_block.h:81-86 | For a bound `r`, the first `n` rows contain exactly `min(n, r)` rows that precede it. |
| `RowBlocks.RowBlock.BoundIsCount` | be/src/olap/row_block.h:81-86 | The lower bound is the number of rows less than the key. The upper bound is the number of rows not greater than it. |
| `RowBlocks.RowBlock.BoundIsUnique` | be/src/olap/row_block.h:81-82 | At most one index is a lower bound, and at most one is an upper bound. |
| `RowBlocks.RowBlock.BoundMeansPartitioned` | be/src/olap/row_block.h:81-86 | Rows that have a bound are partitioned, so the search's requirement holds for them. |
| `RowBlocks.RowBlock.LowerAtMostUpper` | be/src/olap/row_block.h:81-82 | The lower bound of a key never exceeds its upper bound. |
| `RowBlocks.FindRowExample` | be/src/olap/row_block.h:81-86 | Take a block holding the keys 10, 20, 20, 30. The lower bound of 20 is 1 and its upper bound is 3. The lower bound of 5 is 0. The lower bound of 99 is 4, the row count. |
| `RowBlocks.ClearThenFinalize` | be/src/olap/row_block.h:103-104 | Reusing a block with `clear` and then `finalize(k)` leaves exactly `k` rows, whatever the previous cycle left, with `pos` and `limit` at 0, the status `DEL_PARTIAL_SATISFIED` and the buffer unchanged. A `k` above the capacity fails and leaves the capacity as the row count. |
| `RowBlocks.CursorDrainExample` | be/src/olap/row_block.h:106-112 | With limit 2, draining by `pos_inc` leaves `remaining() == 0` and `has_remaining()` false after two steps. After two more steps `remaining()` wraps to `2^64 - 2`. |
| `AggregateTypes.AllPrimitiveTypes` | fe/src/main/java/org/apache/doris/catalog/AggregateType.java:90 | `EnumSet.allOf` holds every primitive type. |
| `AggregateTypes.CompatibilityMap` | fe/src/main/java/org/apache/doris/catalog/AggregateType.java:42-101 | The map the static initialiser builds has an entry for every aggregate type. |
| `AggregateTypes.CheckCompatibility` | fe/src/main/java/org/apache/doris/catalog/AggregateType.java:108-110 | SUM accepts exactly the numeric types. MIN and MAX accept those plus DATE, DATETIME, CHAR and VARCHAR. REPLACE and NONE accept everything. HLL_UNION accepts exactly HLL, and BITMAP_UNION exactly VARCHAR. |
| `AggregateTypes.SumListIsNumeric` | fe/src/main/java/org/apache/doris/catalog/AggregateType.java:46-55 | The list the initialiser builds for SUM is exactly the numeric types TINYINT to DECIMALV2. |
| `AggregateTypes.MinMaxExtendSum` | fe/src/main/java/org/apache/doris/catalog/AggregateType.java:57-87 | MIN and MAX have the same compatibility set, and whatever SUM accepts, MIN and MAX accept too. |
| `AggregateTypes.AggregateType.CompatibleWith` | fe/src/main/java/org/apache/doris/catalog/AggregateType.java:121-123 | The instance form of `checkCompatibility` equals the static form. |
| `AggregateTypes.AggregateType.SqlName` | fe/src/main/java/org/apache/doris/catalog/AggregateType.java:32-38 | The `sqlName` each constant is constructed with, and that the constructor stores in the `sqlName` field (lines 102-106), is spelled as the constant's own name. |
| `AggregateTypes.AggregateType.ToSql` | fe/src/main/java/org/apache/doris/catalog/AggregateType.java:102-114 | `toSql()` returns the declared SQL name. That name is the constant's own name, so `valueOf(toSql())` gives back the constant. |
| `AggregateTypes.AggregateType.ToString` | fe/src/main/java/org/apache/doris/catalog/AggregateType.java:116-119 | `toString()` equals `toSql()` and the constant's name. |
| `AggregateTypes.ValueOf` | fe/src/main/java/org/apache/doris/catalog/AggregateType.java:31-38 | The enum's implicit `valueOf` only returns a constant whose name is the given string. |
| `AggregateTypes.ValueOfToSql` | fe/src/main/java/org/apache/doris/catalog/AggregateType.java:31-38 | A name that `valueOf` accepts prints back as itself through `toSql`. |
| `AggregateTypes.ToSqlInjective` | fe/src/main/java/org/apache/doris/catalog/AggregateType.java:32-38 | Different aggregate types have different SQL names. |
| `AggregateTypes.AggregateType.ToThrift` | fe/src/main/java/org/apache/doris/catalog/AggregateType.java:125-144 | `toThrift()` never returns null for a declared constant. It returns the Thrift constant of the same name. |
| `AggregateTypes.ToThriftInjective` | fe/src/main/java/org/apache/doris/catalog/AggregateType.java:125-144 | Different aggregate types map to different Thrift constants. |

## Left out

- `RowBlocks.RowBlock.FindRow`: the header shows only that `find_row` returns an `OLAPStatus` (row_block.h:84-86). Its failure cases are not shown and are not modelled; the model returns the index alone.
- `RowBlocks.RowBlock.FindRow`: when the rows are not partitioned with respect to the key, the model promises only that the result is within `[0, rowNum]`. The standard binary search gives no more than that either.
- The arithmetic of `std::lower_bound`/`std::upper_bound` (count and step) is written as the equivalent `lo`/`hi` halving.
- `RowBlocks.RowBlock.Init`: the allocation in `init`, the `_compute_layout` computation and `TabletSchema` are not modelled. The layout is taken as given: an offset table plus each column's value width. Every field is taken to carry its null byte, as the comment on `field_ptr` at row_block.h:93-94 says, with "null byte + value" inside one stride. `_null_supported` and layouts without null bytes are not modelled.
- `RowBlocks.RowBlock.Init`: the `OLAPStatus` failure result of `init` (row_block.h:67) is not modelled, because `Init` is a constructor and returns no status. The allocation and layout failures it would report are outside the model.
- `RowBlocks.RowBlock.Finalize`: the refusal of a count above the capacity (`ErrInputParameterError`, nothing changed) is assumed, not taken from the source. The header shows only the `uint32_t row_num` argument and the `OLAPStatus` result (row_block.h:79), and the buffer holds only `capacity` rows, so a larger count could not describe valid rows. The invariant `rowNum <= capacity` rests on this assumption.
- `RowBlocks.RowBlock.Finalize`: a reset of `pos` and `limit` by `finalize` is not modelled. The header declares `finalize` only as fixing the row count (row_block.h:78-79), and its body is not part of this model. So after `clear` and `finalize(k)`, `limit` is 0 and not `k`; `RowBlocks.ClearThenFinalize` states that state.
- `MemPool`, `MemTracker` and `mem_pool()` are allocator internals and memory accounting, outside this model.
- `RowCursor` with its `attach` and its real `cmp` is an external collaborator. `cmp` is an arbitrary total function parameter, and `attach` is the offset `GetRow` returns.
- Checksum and column ids in `RowBlockInfo`, `row_block_info()` and `tablet_schema()` are caller-supplied data with no logic here.
- `row_num()`, `capacity()`, `pos()`, `limit()` and `block_status()` are plain field reads, so they are the fields `rowNum`, `capacity`, `pos`, `limit` and `blockStatus`.
- The friend classes `RowBlockChanger` and `VectorizedRowBatch`, and vectorized filtering, live in other components.
- The destructor and `DISALLOW_COPY_AND_ASSIGN` are ownership idioms. In the model a block owns its buffer by construction.
- The Java `EnumMap`/`EnumSet`/`Lists` machinery is not modelled: the map is a Dafny `map` and the sets are Dafny `set`s.
- Only the `PrimitiveType` members this file names are modelled. All other members are one `OtherType` constant.
- `TAggregationType` is generated from Thrift. It is mirrored by a datatype with the seven constants `toThrift` produces.
