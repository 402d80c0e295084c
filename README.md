# Unique engine, key helpers, old rows events and two client tools, in Dafny

This project models five pieces of a MySQL/MariaDB server tree and proves what they promise.

- **`Unique`** (`sql/uniques.cc`) is the duplicate-elimination engine.
  - Keys go into an in-memory tree that holds one node per key, with a count.
  - When the tree reaches its memory bound, `flush()` writes it to a scratch file as a sorted run and records the run in the `file_ptrs` ledger.
  - `walk()` reports every distinct key once, in ascending order, with its summed count. It does this with a tree walk, or with a k-way merge of the runs (`merge_walk`).
  - `get()` writes the kept keys into a pointer array or into a result file. In intersect mode (`min_dupl_count`), keys whose count stays below the threshold are dropped.
  - An integer cost model (`get_use_cost`, `get_merge_buffers_cost`, `get_merge_many_buffs_cost`) predicts the trees and the merge passes.
- **Key helpers** (`sql/key.cc`) cover several routines:
  - `find_ref_key`;
  - the byte layout `key_copy` produces;
  - the three comparisons `key_cmp`, `key_tuple_cmp` and `key_rec_cmp`, with their NULL ordering;
  - the equality test `key_buf_cmp`;
  - the hash `key_hashnr`.
- **`Old_rows_log_event`** (`sql/log_event_old.cc`) is modelled in four parts:
  - the header decoding of its buffer constructor;
  - its growable row buffer (`do_add_row_data`);
  - `get_data_size`;
  - `last_uniq_key`.
- **mysqladmin** (`client/mysqladmin.cc`) is modelled in four parts:
  - `nice_time`;
  - `mask_password` and the `-p`/`-w` options;
  - the short names of `truncate_names`;
  - the bookkeeping of `print_relative_row` and `print_relative_row_vert`.
- **mysqlshow** (`client/mysqlshow.c`) is modelled in two parts:
  - the in-place rewrite of shell wildcards in the last argument, and the choice of the pattern argument in `main`;
  - the widths `print_header`, `print_row` and `print_trailer` draw.

Modules follow the source files:

| Module | File(s) | What it holds |
|---|---|---|
| `Common` | `common.dfy` | little-endian reads and writes, and decimal text |
| `UniqueRuns`, `UniqueMerge`, `UniquePasses` | `unique_runs.dfy`, `unique_merge.dfy`, `unique_passes.dfy` | runs, the in-order listing of the tree, `merge_walk` and the merge passes |
| `UniqueCost` | `unique_cost.dfy` | the cost model |
| `UniqueEngine` | `unique_engine.dfy` | the `Unique` class |
| `KeyInfo`, `KeyOrder`, `KeyHash` | `key_info.dfy`, `key_order.dfy`, `key_hash.dfy` | `sql/key.cc` |
| `LogEventOld` | `log_event_old.dfy` | the old rows event |
| `MysqlAdmin`, `MysqlShow` | `mysqladmin.dfy`, `mysqlshow.dfy` | the two client tools |

How the source's entities are represented:

- The key order of `Unique` is the order of `int`.
- The tree is a `map<Key, nat>` from each key to its count. Its left-root-right walk is `InOrder`.
- The scratch file is a `seq<Record>`. A `Record` carries a key, and a count only in counting mode.
- Runs are sorted sequences of records.
- `Field`, charset and comparison callbacks are function parameters.
- Arrays the source fills in place stay `array`s.
- Objects whose fields change are classes: `Unique`, `OldRowsLogEvent`, `AdminOptions` and `ExtendedStatus`.

## Model

| member | source | states |
|---|---|---|
| UniqueEngine.Unique.constructor | sql/uniques.cc:91-119 | full_size is size plus the counter exactly when min_dupl_count is non-zero, and with_counters is set under the same condition. max_elements is MaxElementsInTree. The tree, file and ledger start empty. |
| UniqueCost.MaxElementsInTree | sql/uniques.cc:112-115 | the largest number of aligned tree elements that fit in max_in_memory_size, and at least 1 |
| UniqueEngine.Unique.WriteToFile | sql/uniques.cc:43-54 | appends the key without a count; a failed write returns 1 and appends nothing |
| UniqueEngine.Unique.WriteToFileWithCount | sql/uniques.cc:56-65 | appends the key with its count; a failed write returns 1 and appends nothing |
| UniqueEngine.Unique.WriteToPtrs | sql/uniques.cc:67-74 | stores the key at the cursor and advances it by one |
| UniqueEngine.Unique.IntersectWriteToPtrs | sql/uniques.cc:76-88 | a key whose count reaches min_dupl_count is stored and the cursor advances; any other key only raises filtered_out_elems |
| UniqueEngine.Unique.WriteRun | sql/uniques.cc:389-405 | the tree walk of flush writes the records of the ascending listing, up to the first failed write, and fails exactly when a write fails |
| UniqueEngine.Unique.Flush | sql/uniques.cc:389-405 | elements grows by the tree size, and the ascending records are written. On success: one chunk (tree size, offset before the write) is appended, the tree is emptied, and the distinct keys and counts are unchanged. On failure the tree and the ledger are kept. |
| UniqueEngine.Unique.Add | sql/uniques.cc:22-28 | flushes first when the tree already holds max_elements keys, then inserts the key. A failed flush fails the call. It leaves the tree, the run pointers and the runs as they were, and it adds the tree's size to the element count along with the records it did write. Otherwise the count of the key in the combined contents rises by one (counting mode) and nothing else changes. |
| UniqueEngine.Unique.Reset | sql/uniques.cc:414-432 | empties the tree, sets elements to 0 and drops record_pointers; the ledger and the file are cleared only when something had been flushed |
| UniqueEngine.Unique.Merge | sql/uniques.cc:720-790 | Returns 1 exactly when opening the result file fails, or the passes fail, or the final merge fails (that one only when it is not skipped). A failed open changes nothing. Once the passes succeed, the runs are the merge_many_buff passes of the old runs, with the file and the ledger laid out to match. With without_last_merge the result file is untouched; otherwise a successful final merge writes the kept keys of the merged runs. |
| UniqueEngine.Unique.Walk | sql/uniques.cc:661-698 | With nothing flushed it is a tree walk of the ascending listing that stops at the first abort. Otherwise return_rows and elements count every key flushed. walk() fails without visiting anything when the flush, the scratch file's flush and re-read, or the buffer allocation fails, or when a needed merge() fails to open or run its passes. Otherwise the action sees every distinct key of everything added, ascending with its total count, up to the first abort, and no further than a failing read. It fails exactly on an abort or a failing read. |
| UniqueEngine.Unique.WalkFromDisk | sql/uniques.cc:668-697 | the part of walk() after the tree walk test, with the same outcomes: nothing visited on each failure before merge_walk, otherwise the merge of everything added up to the first abort or failing read |
| UniqueEngine.Unique.MergeAndWalk | sql/uniques.cc:683-695 | When the buffer is too small and merge() fails, it fails and visits nothing. Otherwise the action sees the merge of the runs up to the first abort and no further than a failing read, whether or not merge() first reduces the runs. It fails exactly on an abort or a failing read. |
| UniqueEngine.Unique.Get | sql/uniques.cc:798-846 | With nothing flushed and the allocation granted, record_pointers holds exactly the kept keys of the tree, ascending. Otherwise the tree is flushed. get() fails exactly when the flush, the sort buffer allocation or merge() fails. Otherwise the result file holds the kept keys of everything added. |
| UniqueEngine.Unique.GetInMemory | sql/uniques.cc:802-823 | a fresh array of one slot per tree element whose first slots are the kept keys, ascending; return_rows drops the filtered ones |
| UniqueEngine.Unique.GetFromDisk | sql/uniques.cc:825-846 | flushes, then writes the kept keys of everything added. It fails exactly when the flush, the sort buffer allocation or merge() (opening the result file, the passes or the final merge) fails. |
| UniqueEngine.Unique.WritePtrs | sql/uniques.cc:810-822 | record_pointers' first cursor slots are the kept keys, in order, and filtered_out_elems counts the others |
| UniqueEngine.TreeWalk | sql/uniques.cc:661-667 | tree_walk visits the ascending listing until the action first asks to stop, and aborts exactly when it does |
| UniqueEngine.RecordsWritten | sql/uniques.cc:389-405 | fewer records than the tree holds reach the file exactly when a write fails within the tree |
| UniqueEngine.ReadBack | sql/uniques.cc:389-405 | reading the chunks of file_ptrs gives back exactly the runs that were written |
| UniqueEngine.FlushCombined | sql/uniques.cc:389-405 | flushing the tree as one more run keeps every key and every key's count |
| UniqueEngine.InsertCombined | sql/uniques.cc:22-28 | inserting a key raises its combined count by one and changes no other key |
| UniqueEngine.InMemoryKept | sql/uniques.cc:802-823 | with no record on disk, the keys get() keeps from the tree are those of all the data |
| UniqueEngine.WalkBufferSuffices | sql/uniques.cc:678-695 | the buffer walk() allocates never makes merge_walk refuse its set-up |
| UniqueEngine.MergeBufferSize | sql/uniques.cc:674-679 | the buffer holds at least MERGEBUFF2 + 1 records |
| UniqueEngine.FlushShaped | sql/uniques.cc:389-405 | the run flushed from a non-empty tree is sorted and non-empty |
| UniqueEngine.InsertSize | sql/uniques.cc:22-28 | an insertion adds at most one key, and the inserted key is present |
| UniqueRuns.InOrderSpec | sql/uniques.cc:389-405 | the tree's left-root-right listing is strictly ascending and lists every key once, with its count |
| UniqueRuns.InOrderUnique | sql/uniques.cc:22-28 | any strictly ascending listing of a map's keys with their counts is that map's in-order listing |
| UniqueRuns.DistinctKeysCount | sql/uniques.cc:22-28 | an ascending listing has as many distinct keys as elements |
| UniqueRuns.EncodeSorted | sql/uniques.cc:43-65 | the records written for an ascending listing form a sorted run |
| UniqueRuns.AllKeysPresent | sql/uniques.cc:507-637 | a key is merged exactly when some run holds it |
| UniqueRuns.UntilStopPrefix | sql/uniques.cc:601-602 | a prefix that ends with the first element whose action asks to stop is what the walk visits |
| UniqueMerge.BufferLayout | sql/uniques.cc:515-555 | When the set-up is accepted: at least one key per piece, the pieces of all runs end before the save slot, and the save slot is one key long at the end of the buffer. |
| UniqueMerge.MergeWalk | sql/uniques.cc:507-637 | Refuses (fails, visits nothing) with no runs or a buffer smaller than key_length × (runs + 1). Otherwise the action sees every distinct key of the runs once, ascending, with its summed count (counting mode) or 1. It stops at the first abort, and when a read_to_buffer fails after k keys, at k keys. It fails exactly on an abort or a failing read. |
| UniqueMerge.MergeUntilOneRun | sql/uniques.cc:557-610 | the main loop leaves a single run with records and reports a prefix of the merge, or ends early, on an abort or a failing read, with exactly what the action has seen |
| UniqueMerge.ReadFailResult | sql/uniques.cc:580-582 | a read that fails after k reports, none of which aborted, leaves the action with the first k keys of the merge |
| UniqueMerge.PopTop | sql/uniques.cc:566-609 | a popped key is reported exactly when the new top differs; an equal key's count moves into the new top; the records left shrink |
| UniqueMerge.WalkLastRun | sql/uniques.cc:611-633 | draining the last run completes the merge, stopping at the first abort or failing read; the final read can still fail after the last key |
| UniqueMerge.PartialResult | sql/uniques.cc:557-610 | the keys reported so far are the beginning of the full merge |
| UniqueMerge.FinalResult | sql/uniques.cc:611-633 | once every run is used up, the reported keys are the full merge |
| UniqueMerge.AbortResult | sql/uniques.cc:601-602 | an action that asks to stop ends the walk with exactly what it has seen |
| UniquePasses.PassOccurs | sql/uniques.cc:720-790 | a merge pass keeps exactly the keys it is given and, in counting mode, each key's total count |
| UniquePasses.PassSummary | sql/uniques.cc:720-790 | a pass keeps every key and every key's total count |
| UniquePasses.ManyBuffSummary | sql/uniques.cc:720-790 | merge_many_buff keeps every key and every key's total count |
| UniquePasses.ManyBuffShape | sql/uniques.cc:720-790 | every run merge_many_buff leaves is sorted and non-empty |
| UniquePasses.RunCountEncode | sql/uniques.cc:43-65 | a written listing holds each key once, with its count |
| UniquePasses.KeptKeysMembers | sql/uniques.cc:76-88 | the final merge keeps a key exactly when it is listed with a count reaching the threshold |
| UniqueCost.GetMergeBuffersCost | sql/uniques.cc:173-187 | stores the total of buff[first..last] into buff[last], changes nothing else, and returns that call's buffer count and total |
| UniqueCost.GetMergeManyBuffsCost | sql/uniques.cc:217-264 | the calls and the array are those of the source's loops, as written |
| UniqueCost.FillInitial | sql/uniques.cc:230-233 | maxbuffer buffers of max_n elements, then last_n |
| UniqueCost.GetMergeManyBuffsCostCompacted | sql/uniques.cc:217-264 | the corrected simulation: its calls are those of merge_many_buff followed by the final merge, and the final merge handles every element |
| UniqueCost.PassesCompacted | sql/uniques.cc:238-258 | the pass loop ends below MERGEBUFF2 buffers and its calls, with those of the rest, are the whole schedule |
| UniqueCost.PassLoopCompacted | sql/uniques.cc:242-256 | one pass makes the calls of PassCalls and leaves their totals at the front of the array |
| UniqueCost.FullGroupsShrinks | sql/uniques.cc:238-258 | each pass strictly lowers maxbuffer, so the pass loop ends |
| UniqueCost.PassKeepsElements | sql/uniques.cc:238-258 | a pass loses no element |
| UniqueCost.FinalMergeTotal | sql/uniques.cc:260-263 | the final merge handles every element, over at most MERGEBUFF2 buffers |
| UniqueCost.PassCountMatches | sql/uniques.cc:238-258 | the simulation leaves as many buffers per pass as merge_many_buff leaves runs |
| UniqueCost.GetUseCost | sql/uniques.cc:318-378 | nkeys is split into n_full_trees full trees and a smaller last tree. in_memory holds exactly when nkeys < max_elements_in_tree, and exactly then nothing is merged. Otherwise the element size includes the counter in intersect mode, and the merges are those of get_merge_many_buffs_cost as written. With fewer than MERGEBUFF2 full trees that is one merge of all nkeys. |
| UniqueCost.PassAsWrittenGrows | sql/uniques.cc:238-258 | a pass of the as-written loop adds at least one call |
| UniqueCost.ManyBuffsAsWrittenGrows | sql/uniques.cc:217-264 | the as-written simulation adds at least one call to those already made |
| UniqueCost.GetUseCostCompacted | sql/uniques.cc:318-378 | the corrected estimate: get_use_cost over the compacted merge schedule, whose last merge handles all nkeys |
| UniqueCost.UseCostAgrees | sql/uniques.cc:318-378 | as written and corrected estimates agree whenever there are fewer than MERGEBUFF2 full trees |
| KeyInfo.FindRefKey | sql/key.cc:52-96 | First choice: the first key whose first part is the field, with key_length and keypart 0. Else the first key holding the field among its user parts, with keypart its position and key_length the store lengths before it. -1 exactly when no key holds the field. |
| KeyInfo.KeyCopy | sql/key.cc:115-166 | the buffer afterwards is the effect of one loop iteration per part until the key length runs out, each inside its part's slot |
| KeyInfo.KeyCopyNullLayout | sql/key.cc:127-142 | a nullable part's slot starts with 1 exactly for a NULL value; the rest of a NULL part's slot is zero with with_zerofill and untouched without |
| KeyInfo.KeyCopyValue | sql/key.cc:143-164 | a non-NULL fixed-length part holds a 0 null byte when nullable, then the key image padded by the charset fill |
| KeyInfo.PartStepFits | sql/key.cc:123-165 | every iteration stays inside its part's store_length slot |
| KeyInfo.SlotAt | sql/key.cc:123-165 | each byte of a covered slot holds what that part's iteration wrote, or the old byte past it |
| KeyOrder.KeyCmp | sql/key.cc:488-521 | the first non-zero per-part verdict (NULL against NULL is equal; a NULL range key is below a non-NULL field and a non-NULL one above a NULL field); always -1, 0 or 1 |
| KeyOrder.FirstNonzeroZero | sql/key.cc:645-673 | the verdict is 0 exactly when every part compares equal |
| KeyOrder.FirstNonzeroAt | sql/key.cc:645-673 | otherwise it is the verdict of the first part that differs |
| KeyOrder.KeyTupleCmp | sql/key.cc:645-673 | the first non-zero part comparison of the two tuples, 0 when all parts are equal |
| KeyOrder.KeyTupleCmpAntisymmetric | sql/key.cc:645-673 | swapping the tuples flips the sign when Field::key_cmp does |
| KeyOrder.KeyTupleCmpReflexive | sql/key.cc:645-673 | a tuple equals itself |
| KeyOrder.KeyTupleCmpNullFirst | sql/key.cc:651-660 | after equal parts, a part NULL only in the first tuple makes it the smaller |
| KeyOrder.KeyRecCmp | sql/key.cc:554-625 | the first non-zero part verdict over every key of the list (NULL before non-NULL, both NULL skipped) |
| KeyOrder.KeyRecCmpAntisymmetric | sql/key.cc:554-625 | swapping the rows flips the sign when cmp_prefix does |
| KeyHash.KeyHashnr | sql/key.cc:691-777 | the hash of the first used_key_parts parts from nr = 1, nr2 = 4, part by part |
| KeyHash.KeyBufCmp | sql/key.cc:794-886 | true exactly when some of the first used_key_parts parts differ |
| KeyHash.EqualKeysHashAlike | sql/key.cc:691-886 | keys key_buf_cmp calls equal hash alike, when hash_sort agrees with the collation |
| KeyHash.KeyBufCmpReflexive | sql/key.cc:794-886 | a buffer equals itself |
| KeyHash.KeyBufCmpSymmetric | sql/key.cc:794-886 | the verdict does not depend on the order of the buffers |
| LogEventOld.LastUniqKey | sql/log_event_old.cc:314-321 | 0 exactly when a key after keyno is unique (HA_NOSAME), 1 otherwise |
| LogEventOld.NetLengthRoundTrip | sql/log_event_old.cc:1222 | reading back a stored length gives it again and moves past exactly the stored bytes |
| LogEventOld.DecodeRowsEvent | sql/log_event_old.cc:1177-1260 | A 6-byte post-header gives a four-byte table id, any other a six-byte id; the flags are two bytes. The width is the length-encoded number after the post-header. The bitmap has (width + 7) / 8 bytes. It is missing exactly when it does not fit in the bytes left or its allocation fails. The rows are missing exactly when the bitmap is or their allocation fails, and they lie within the event. |
| LogEventOld.DecodeShortHeader | sql/log_event_old.cc:1203-1215 | an event written with the 4-byte table id and 2-byte flags of the 6-byte post-header (as `int4store`/`int2store` write it at lines 1783-1787) decodes to that id, those flags, width, bitmap and rows |
| LogEventOld.DecodeEncoded | sql/log_event_old.cc:1177-1260 | decoding what the event writes gives back its table id, flags, width, bitmap and rows |
| LogEventOld.OldRowsLogEvent.FromBuffer | sql/log_event_old.cc:1177-1260 | the fields are the decoded ones and the row buffer holds exactly the received rows |
| LogEventOld.GetDataSizeAsWritten | sql/log_event_old.cc:1273-1287 | get_data_size as written (prefix of the bitmap's byte count): never more than the corrected size, and equal to it below 251 columns |
| LogEventOld.GetDataSize | sql/log_event_old.cc:1273-1287 | the corrected size: post-header, bitmap and rows plus a 1 to 9 byte length prefix, of one byte exactly below 251 columns |
| LogEventOld.DataSizeIsEncodedLength | sql/log_event_old.cc:1273-1287 | the corrected size is the length of what the event writes after the common header |
| LogEventOld.NewAlloc | sql/log_event_old.cc:1314-1320 | the rows so far plus the new row, rounded up to a whole number of blocks |
| LogEventOld.OldRowsLogEvent.AddRowData | sql/log_event_old.cc:1290-1343 | Grows to NewAlloc when the room left is not more than the row. A refused reallocation returns HA_ERR_OUT_OF_MEM with nothing changed. Otherwise the row is appended, the count rises by one, and the header fields stay. |
| MysqlAdmin.Split | client/mysqladmin.cc:1446-1472 | days, hours, minutes and seconds add up to the input, with hours below 24 and minutes and seconds below 60 |
| MysqlAdmin.SplitUnique | client/mysqladmin.cc:1446-1472 | no other split meets those bounds |
| MysqlAdmin.NiceTime | client/mysqladmin.cc:1446-1472 | the text of that split: day(s), hour(s) and min only when reached, "sec" always |
| MysqlAdmin.MaskPassword | client/mysqladmin.cc:1325-1350 | returns none for an empty command line, else a copy as given; argv becomes MaskedArgs |
| MysqlAdmin.MaskedArgsAt | client/mysqladmin.cc:1335-1347 | an argument is masked exactly when the one before it, as given, is a password command; the program name never is |
| MysqlAdmin.Atoi | client/mysqladmin.cc:293 | atoi's result is a 32-bit int |
| MysqlAdmin.AtoiReadsSignedDecimal | client/mysqladmin.cc:293 | atoi reads back every 32-bit int written in decimal, with a minus sign when negative |
| MysqlAdmin.StoreWait | client/mysqladmin.cc:290-297 | the corrected -w count is between 1 and ~0, and equals any positive count |
| MysqlAdmin.StoreWaitAgreesOnNonNegative | client/mysqladmin.cc:290-297 | as written and corrected agree on counts that are not negative |
| MysqlAdmin.AdminOptions.OptionPassword | client/mysqladmin.cc:253-273 | a given or disabled (read as empty) password is kept and the argument masked; without one the password is read from the terminal |
| MysqlAdmin.AdminOptions.OptionWait | client/mysqladmin.cc:290-297 | option_wait becomes the count of the argument with the corrected `<= 0`, or ~0 without one; the password state is untouched |
| MysqlAdmin.TruncatedNamesDistinct | client/mysqladmin.cc:1637-1648 | no two variables get the same short name |
| MysqlAdmin.ExtendedStatus.TruncateNames | client/mysqladmin.cc:1637-1648 | every variable gets its first character followed by one plus the number of earlier names with that character |
| MysqlAdmin.Delta | client/mysqladmin.cc:1542-1543 | the unsigned difference read as a signed 64-bit value; it is the true difference whenever that fits |
| MysqlAdmin.ExtendedStatus.PrintRelativeRow | client/mysqladmin.cc:1531-1546 | prints the name and the change since the last round (a missing value reads as 0), and remembers the new value |
| MysqlAdmin.ExtendedStatus.PrintRelativeRowVert | client/mysqladmin.cc:1549-1569 | prints the change in a column of the remembered width and remembers the new value. The width never shrinks, and it only grows once the first round has been printed. |
| MysqlShow.Rewrite | client/mysqlshow.c:84-108 | the rewritten argument is no longer than the input |
| MysqlShow.EscapeRoundTrip | client/mysqlshow.c:84-108 | an escaped name uses no wildcards, and the rewrite gives it back |
| MysqlShow.RewriteLastArgument | client/mysqlshow.c:84-108 | in place: the argument becomes its rewrite, NUL-terminated and no longer; the flag is set exactly when an unescaped wildcard occurs; memory past the NUL is untouched |
| MysqlShow.ScanEndAtTerminator | client/mysqlshow.c:87-107 | the corrected scan stops at the argument's own NUL |
| MysqlShow.SelectArguments | client/mysqlshow.c:110-119 | the last argument becomes the pattern exactly when it uses wildcards or is the third; more than two remaining arguments is an error |
| MysqlShow.HeaderCell | client/mysqlshow.c:826-839 | every title cell is length + 3 characters including its '\|' |
| MysqlShow.HeaderCellCentred | client/mysqlshow.c:826-839 | a title that fits is centred, with pre_space ≥ 1 and the odd space on the right; a longer title is cut to length + 1 characters |
| MysqlShow.HeaderCellAgrees | client/mysqlshow.c:826-839 | the size_t arithmetic as written gives the same cell whenever the title fits |
| MysqlShow.LinesAlign | client/mysqlshow.c:801-910 | the border, the header line and a row whose values fit are all equally wide |
| MysqlShow.PrintHeader | client/mysqlshow.c:801-861 | a border, the centred titles and a border |
| MysqlShow.PrintRow | client/mysqlshow.c:864-888 | each value after "\| ", padded to length + 1, then the closing '\|' |
| MysqlShow.UntilZero | client/mysqlshow.c:898-908 | the widths before the first zero, none of them zero |
| MysqlShow.PrintTrailer | client/mysqlshow.c:891-910 | a border over the first width and the widths up to the terminating 0 |
| Common.DecimalRoundTrip | client/mysqladmin.cc:1646 | the digits int10_to_str writes read back as the number |

## Left out

- Output goes to stdout in the source. Here each printing routine returns the text it would print. Connections, queries, result fetching, signals, sleeps and retry loops are not modelled.
- `sql/uniques.cc` sits on code that is not part of this model, so these are specified by contract only:
  - the TREE implementation;
  - the QUEUE;
  - `IO_CACHE`;
  - `merge_many_buff`;
  - `merge_index`;
  - `read_to_buffer`;
  - `reuse_freed_buff`.
  The file is a sequence of records. The heap picks any run whose head is smallest.
- The floating-point terms of the cost model (`log2_n_fact`, `log`, disk seek costs) are left out. Only the integer structure is modelled.
- Constants defined outside the shown files are module constants:
  - MERGEBUFF = 7;
  - MERGEBUFF2 = 15;
  - the tree element size;
  - the counter size;
  - HA_KEY_BLOB_LENGTH = 2;
  - RW_MAPID_OFFSET = 0;
  - RW_FLAGS_OFFSET = 6;
  - ROWS_HEADER_LEN = 8;
  - the 1024-byte block of the row buffer.
- `unique_add` is in `sql/uniques.h`, which is not part of this model. `UniqueEngine.Unique.Add` follows the engine description in the file's header comment.
- Failures are parameters of the operation they hit:
  - allocation failures: `allocFails`, `sortAllocFails`;
  - flush() write errors: `Fault`;
  - the flush and re-read of the scratch file in walk(): `cacheFails`;
  - merge()'s open, passes and final merge: `MergeFault`;
  - merge_walk's reads: `readFault`.
  Nothing else about them is modelled.
- UniqueEngine.Unique.Merge: after a failed pass or final merge, the partly written scratch and result files are not modelled; the contract says nothing about them.
- UniqueEngine.Unique.Merge: the source sets file_ptrs.elements only when without_last_merge, over entries merge_many_buff rewrote in place. The model rewrites the whole ledger to the merged runs either way; nothing reads it after get().
- UniqueMerge.MergeWalk: reads are per buffer piece in the source and whole runs in the model, so a failing read is placed by the number of keys reported before it.
- Field and charset calls are parameters:
  - `get_key_image`;
  - `cmp_prefix`;
  - `Field::key_cmp`;
  - `strnncollsp`;
  - `hash_sort`;
  - `charpos`;
  - `fill`.
  The spatial image type of `key_copy` (`itMBR`) is not distinguished.
- `key_restore`, `key_unpack`, `field_unpack` and `is_key_used` are left out, as are the replication apply paths, `write_data_*` I/O and `print_helper` of `log_event_old.cc`.
- `pack.c` is not part of this model. `net_field_length` and `net_store_length` are modelled from the protocol's length-encoded integer. The eight-byte form is read through its low four bytes, as `net_field_length` does.
- `find_type` (the password-command test) and `strtoull` are function parameters.
- LogEventOld.OldRowsLogEvent.AddRowData: does not model the `(uint)` truncation of the new allocation size or pointer wrap-around. It assumes sizes fit in memory.
- LogEventOld.GetDataSize: does not model the `int` overflow of the returned size.
- UniqueMerge.MergeWalk: the summed count of a key (`cnt +=`, sql/uniques.cc:606-608) is an unbounded nat. The source's 32-bit `element_count` would wrap past 2^32 - 1 repeats of one key.
- UniqueMerge.PopTop: the same count sum is unbounded here, with no 32-bit wrap.
- UniqueCost.GetMergeBuffersCost: the `uint total_buf_elems` total (sql/uniques.cc:177-179) is not wrapped at 2^32.
- UniqueCost.GetUseCost: the `(uint)` casts of n_full_trees, max_elements_in_tree and last_tree_elems (sql/uniques.cc:366-368) are not modelled. They only change the estimate past 2^32 elements.
- LogEventOld.DecodeRowsEvent: the `old_row_based_repl_4_byte_map_id_master` debug variant is modelled only through the 6-byte post-header; DBUG output is left out.
- KeyHash.KeyBufCmp: requires both buffers to hold their parts, which the caller guarantees in the source.
- MysqlAdmin.MaskPassword: bytes after the cut of a masked argument are not modelled. The model keeps the string of one character.
- MysqlShow.PrintRow: values are strings. A NULL value cannot be passed, because it would end the argument list.
- MysqlShow.PrintTrailer: requires the terminating 0 that every caller passes.
- MysqlShow.PrintHeader: is specified with the corrected cell (MysqlShow.HeaderCell). HeaderCellAgrees shows it equals the source's arithmetic whenever titles fit, which every caller in the file ensures.

## Findings

| source | as written | input that shows it | evidently intended | confidence | as-written member | corrected member |
|---|---|---|---|---|---|---|
| sql/uniques.cc:238-258 | each pass leaves its totals in the last buffer of each group, but the next pass reads buffers 0..maxbuffer as if the totals had been moved to the front | 15 buffers of 10 elements and one of 5: the final merge is charged for 20 elements, not 155 | each pass's totals compacted to the front, as merge_many_buff does, so the final merge covers every element | not executed | UniqueCost.ManyBuffsAsWrittenUndercounts (UniqueCost.GetMergeManyBuffsCost), UniqueCost.UseCostAsWrittenUndercounts (UniqueCost.GetUseCost) | UniqueCost.GetMergeManyBuffsCostCompacted, UniqueCost.GetUseCostCompacted |
| sql/log_event_old.cc:1225 | the guard compares the bytes left with m_width, the number of columns, not the bitmap's byte count | an event with 16 columns, a two-byte bitmap and two row bytes is rejected | compare with (m_width + 7) / 8 bytes | not executed | LogEventOld.BitmapGuardRejectsComplete (LogEventOld.BitmapFitsAsWritten) | LogEventOld.DecodeRowsEvent, LogEventOld.DecodeEncoded |
| sql/log_event_old.cc:1276 | the length prefix counted is that of (m_width + 7) / 8, but write_data_body stores m_width itself | 2000 columns: the size is two bytes short (one-byte prefix counted, three written) | count the prefix of m_width | not executed | LogEventOld.DataSizeAsWrittenShort (LogEventOld.GetDataSizeAsWritten) | LogEventOld.DataSizeIsEncodedLength |
| client/mysqladmin.cc:293 | option_wait is unsigned, so `<= 0` only catches 0 and a negative count wraps | `-w -5` waits 4294967291 times | a count that is not positive becomes 1 | not executed | MysqlAdmin.StoreWaitNegativeWraps, MysqlAdmin.AtoiMinusFive | MysqlAdmin.StoreWait, MysqlAdmin.StoreWaitAgreesOnNonNegative, MysqlAdmin.AdminOptions.OptionWait |
| client/mysqladmin.cc:1646 | a two-digit suffix writes its NUL into the next slot, which the next name overwrites | eleven variables starting with the same letter: the tenth short name (suffix 10) runs on into the eleventh | suffixes fit their slot, each short name ends in its own slot | not executed | MysqlAdmin.SlotRunsOnAsWritten (MysqlAdmin.WriteSlotAsWritten) | MysqlAdmin.TruncatedNamesDistinct, MysqlAdmin.ExtendedStatus.TruncateNames |
| client/mysqlshow.c:102-104 | a backslash always skips the next character, even the terminating NUL, and the loop reads on past the argument | the argument `a\` followed in memory by `b`: the scan stops at 4, not 2 | a trailing backslash has nothing to escape and ends the scan at the NUL | not executed | MysqlShow.TrailingBackslashReadsOn (MysqlShow.ScanEndAsWritten) | MysqlShow.ScanEndAtTerminator, MysqlShow.RewriteLastArgument |
| client/mysqlshow.c:829-836 | with a title longer than its column, `length - str_length` wraps in size_t | a title one character longer than the column: 2^63 spaces before it and 2^63 + 1 after it | the over-long title shown after one space | not executed | MysqlShow.HeaderCellAsWrittenWraps (MysqlShow.HeaderCellAsWritten) | MysqlShow.HeaderCell, MysqlShow.HeaderCellCentred |
