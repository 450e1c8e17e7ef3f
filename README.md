# syscalls: a Dafny model

A model of the core of the `syscalls` Rust crate (jasonwhite/syscalls). The
crate makes Linux system calls from Rust. The model covers its three parts
that can be checked:

* **Syscall identity and keyed containers.**
  * `Sysno` is the enum that `syscall_enum!` generates from a per-architecture table.
  * `SysnoSet` is a bitset of `usize` words, one bit per slot from `first()` to `last()`.
  * `SysnoMap<T>` is such a set paired with one value slot per syscall number.
* **Return-value and error translation.**
  * `Errno` and its `from_ret`, `result`, `name`, `description` and `Display`.
  * The older `helper::syscall_ret`.
  * The `SyscallRet` / `Result` conversions.
  * The positional, zero-filling packing of `SyscallArgs` (the `usize` and the `u64` versions).
* **The offline generators.**
  * Reading a `syscall.tbl` file, or `unistd.h` headers, into sorted table rows, and writing those rows as a `syscall_enum!` invocation.
  * Reading the kernel's errno headers and writing the `errno_enum!` invocation.
  * The `sysnum` build-time reader of `asm/unistd_*.h`.

How each kind of code is modelled:

* **Generated tables are parameters.** The generated per-architecture tables
  are not part of this model. A table is a parameter: a sequence of
  `Entry(id, name)` rows. `Syscalls.WellFormed` requires the rows to be
  non-empty, numbered by non-negative `i32` values in strictly ascending
  order, and distinctly named. The errno table is likewise a parameter, a sequence of
  `ErrnoItem(name, code, doc)`.
* **Containers are classes over arrays.** `SysnoSet` owns an `array` of words.
  `SysnoMap` owns a `SysnoSet` and an `array` of slots. Their methods are
  proved against a ghost abstraction: the set of syscall numbers held.
* **The word type.** `usize` is 64 bits wide. A word is a natural number
  below 2^64, and `|`, `&`, `& !` and `^` are defined bit by bit.
  `Errno::from_ret` takes the width (32 or 64) as a parameter.
* **Generators work on strings.** They take file contents as strings and
  produce the lines their `writeln!`s would write. The regular expressions
  are written out as small matching functions. Each generator is proved
  against a reference reader: the text it writes reads back as the rows it
  was given.

## Model

| member | source | states |
|---|---|---|
| Syscalls.IdsOrdered | src/arch/macros.rs:23-30 | In a generated table, row order and number order agree, and two rows with the same number are the same row. |
| Syscalls.FindId | src/arch/macros.rs:46-52 | The match of `new` from row `k` on: it finds a row carrying the number, or no row from `k` on carries it. |
| Syscalls.New | src/arch/macros.rs:43-53 | `new(id)` is `Some` of that syscall exactly when some row carries `id`, and `None` for a hole. |
| Syscalls.Id | src/arch/macros.rs:95-98 | `id()` is the discriminant, and the discriminant determines the syscall. |
| Syscalls.Name | src/arch/macros.rs:56-63 | `name()` is the identifier of the row that carries the syscall's number. |
| Syscalls.FindName | src/arch/macros.rs:127-133 | The match of `from_str` from row `k` on: it finds a row with that identifier, or no row from `k` on has it. |
| Syscalls.FromStr | src/arch/macros.rs:123-135 | `from_str` gives `Ok` of a syscall whose row has that identifier, and `Err(())` exactly when no row has it. |
| Syscalls.FromStrName | src/arch/macros.rs:123-135 | Parsing a syscall's name gives that syscall back. |
| Syscalls.NameFromStr | src/arch/macros.rs:123-135 | A name that parses is the name of the syscall it parses to, and that syscall is listed. |
| Syscalls.All | src/arch/macros.rs:34-39 | `ALL` lists one syscall per row, in table order. |
| Syscalls.ListedIds | src/arch/macros.rs:34-39 | The numbers of the table are exactly the listed numbers. |
| Syscalls.ListedIdsCount | src/arch/macros.rs:106-109 | A well-formed table has exactly `count()` distinct numbers. |
| Syscalls.First | src/arch/macros.rs:85-88 | `first()` is a listed syscall (and, by `FirstLastBound`, the lowest). |
| Syscalls.Last | src/arch/macros.rs:90-93 | `last()` is a listed syscall (and, by `FirstLastBound`, the highest). |
| Syscalls.FirstLastBound | src/arch/macros.rs:85-93 | Every syscall's number lies between those of `first()` and `last()`. |
| Syscalls.Count | src/arch/macros.rs:106-109 | `count()` is the number of syscalls `ALL` lists. |
| Syscalls.TableSize | src/arch/macros.rs:111-115 | Every row's offset from `first()` is below `table_size()`, and the last row's offset is exactly `table_size() - 1`, so no smaller size covers the table. |
| Syscalls.CountWithinTableSize | src/arch/macros.rs:106-115 | `count()` never exceeds `table_size()`, because the numbers are sorted and distinct. |
| Syscalls.Successor | src/arch/macros.rs:65-66 | The documented `next`: `None` exactly for `last()`; otherwise a listed syscall above `self` with no listed number in between. |
| Syscalls.SuccessorUnique | src/arch/macros.rs:65-66 | The listed syscall directly above `s`, with nothing listed in between, is the successor. |
| Syscalls.SuccessorOfRow | src/arch/macros.rs:65-66 | The successor of row `k` is row `k + 1`, and the final row has none. |
| Syscalls.Next | src/arch/macros.rs:67-83 | The loop of `next` as written: it returns what the scan below `last().id()` finds (`NextAsWritten`). |
| Syscalls.NextAsWrittenSkipsLast | src/arch/macros.rs:74 | As written, `next` never returns `last()`, and it returns `None` on the row before `last()`. |
| Syscalls.NextFixed | src/arch/macros.rs:67-83 | The same loop with the bound `<=`, which returns exactly the documented successor. |
| Syscalls.IterFromRow | src/arch/macros.rs:117-120 | As written, iterating from row `k` yields rows `k` up to, but not including, the final row. |
| Syscalls.IterMissesLast | src/arch/macros.rs:117-120 | As written, `iter()` on a table of two or more rows yields every syscall except `last()`. |
| Syscalls.IterFixedFromRow | src/arch/macros.rs:117-120 | With the corrected `next`, iterating from row `k` yields rows `k` to the end. |
| Syscalls.IterFixedIsAll | src/arch/macros.rs:117-120 | With the corrected `next`, `iter()` yields `ALL`: every syscall once, in ascending order. |
| Syscalls.U32AsUsize | src/arch/macros.rs:151 | `u32 as usize` keeps the value on a 64-bit target. |
| Syscalls.I32AsUsize | src/arch/macros.rs:158 | `i32 as usize` keeps non-negative values and sends negative ones above `i32::MAX`. |
| Syscalls.FromU32 | src/arch/macros.rs:149-154 | `From<u32>` is defined exactly where `new` gives `Some` (it panics elsewhere), and it gives the listed syscall with that number. |
| Syscalls.FromI32 | src/arch/macros.rs:156-161 | `From<i32>` is defined exactly where `new` gives `Some`, and it gives the listed syscall with that number. |
| Syscalls.NegativeNeverListed | src/arch/macros.rs:156-161 | A negative `i32` never names a syscall, so `From<i32>` panics on every negative number. |
| Words.TrailingZeros | src/set.rs:339 | `trailing_zeros` of a non-zero word is the position of its lowest set bit. |
| Words.TrailingZerosInWord | src/set.rs:339 | The lowest set bit of a non-zero word lies within its 64 bits. |
| Words.OrBit | src/set.rs:159 | Bit `j` of `a \| b` is set exactly when it is set in `a` or in `b`. |
| Words.AndBit | src/set.rs:172 | Bit `j` of `a & b` is set exactly when it is set in both. |
| Words.AndNotBit | src/set.rs:187 | Bit `j` of `a & !b` is set exactly when it is set in `a` and not in `b`. |
| Words.XorBit | src/set.rs:202 | Bit `j` of `a ^ b` is set exactly when it is set in one of them only. |
| Words.BitwiseWords | src/set.rs:155-207 | The word-wise operations keep every result within a `usize`. |
| Words.AndMaskNonZero | src/set.rs:103 | `a & (1 << j) != 0` exactly when bit `j` of `a` is set. |
| Words.CountOnes | src/set.rs:128 | `count_ones` of a word is the number of its set bits. |
| Words.OnesBelowCounts | src/set.rs:128 | Counting bits one by one agrees with the size of the set of set positions. |
| Words.AscendingFromFacts | src/set.rs:325-356 | A word lists `base + j` for each of its set bits `j`, each once, in strictly ascending order. |
| Words.PeelLowest | src/set.rs:339-345 | Clearing the lowest set bit with `MASK.rotate_left(bit)` leaves the word's list with its first number removed. |
| SysnoSets.BitsPer | src/set.rs:8-10 | `bits_per` is the size times 8, saturating at `usize::MAX`. It is zero exactly for a zero-sized type. |
| SysnoSets.WordsForIsCeiling | src/set.rs:14-21 | `words(bits)` is the fewest words that hold `bits` bits: the ceiling of `bits / width`. |
| SysnoSets.WordsForZeroSized | src/set.rs:16-18 | A zero-width element type needs no words. |
| SysnoSets.IdsOfMember | src/set.rs:63-66 | The number `first + 64 * k + j` is in the set exactly when bit `j` of word `k` is set. |
| SysnoSets.GetIdxMask | src/set.rs:62-66 | `get_idx_mask` gives a word index that is within the `data` array for every valid syscall. |
| SysnoSets.GetIdxMaskBit | src/set.rs:63-66 | The mask is `1 << bit`, and the syscall's number is `first + 64 * idx + bit`. |
| SysnoSets.MaskedWord | src/set.rs:101-104 | `data[idx] & mask != 0` exactly when the syscall is in the set. |
| SysnoSets.SetBitIds | src/set.rs:138 | `data[idx] \|= mask` adds exactly that syscall's number to the set. |
| SysnoSets.ClearBitIds | src/set.rs:149 | `data[idx] &= !mask` removes exactly that syscall's number from the set. |
| SysnoSets.ZeroWordsIds | src/set.rs:87-91 | All-zero words hold no syscall. |
| SysnoSets.AllZeroIffNoIds | src/set.rs:110-112 | The words are all zero exactly when the set holds nothing. |
| SysnoSets.SumOnesCounts | src/set.rs:125-129 | The sum of the words' `count_ones` is the number of syscalls in the set. |
| SysnoSets.Zip | src/set.rs:155-207 | The word-wise combination of two equally long word sequences has one result word per input word. |
| SysnoSets.ZipInPlace | src/set.rs:155-207 | The in-place loop of the set operations leaves `data[i] = op(old data[i], other[i])` for every word. |
| SysnoSets.UnionIds | src/set.rs:155-164 | Word-wise `\|` holds the union of the two sets. |
| SysnoSets.IntersectionIds | src/set.rs:168-177 | Word-wise `&` holds their intersection. |
| SysnoSets.DifferenceIds | src/set.rs:183-192 | Word-wise `& !` holds their difference. |
| SysnoSets.SymmetricDifferenceIds | src/set.rs:198-207 | Word-wise `^` holds their symmetric difference. |
| SysnoSets.AscendingFacts | src/set.rs:322-356 | Iterating from word `k` yields numbers from word `k` on, in strictly ascending order. |
| SysnoSets.AscendingMembers | src/set.rs:322-356 | Iterating from word `k` yields exactly the set's numbers from word `k` on. |
| SysnoSets.AscendingSkipZeros | src/set.rs:290-301 | Zero words, which `NonZeroUsizeIter` skips, add nothing to the iteration. |
| SysnoSets.IterationOrder | src/set.rs:322-356 | The iteration over the whole set yields each member once, in strictly ascending order, and nothing else. |
| SysnoSets.PendingAdvance | src/set.rs:290-301 | After the word iterator fetches the next non-zero word (or runs out), what remains to be yielded is the iteration from where it started. |
| SysnoSets.IterStep | src/set.rs:325-356 | One `next` yields the first pending number, which is a listed syscall number, and keeps the iterator's invariant. |
| SysnoSets.IterStart | src/set.rs:314-320 | A fresh iterator has the whole set's iteration pending. |
| SysnoSets.AllIds | src/set.rs:57 | The numbers of `Sysno::ALL` are exactly the table's numbers. |
| SysnoSets.SysnoSet.Ids | src/set.rs:45-47 | The set holds only listed syscall numbers. |
| SysnoSets.SysnoSet.Empty | src/set.rs:87-91 | `empty()` holds no syscall. |
| SysnoSets.SysnoSet.New | src/set.rs:71-84 | `new(list)` holds exactly the listed syscalls. |
| SysnoSets.SysnoSet.SetBitOf | src/set.rs:78-79 | One step of the `new` loop adds exactly that syscall. |
| SysnoSets.SysnoSet.All | src/set.rs:94-98 | `all()` holds every syscall of the table, and its size is `Sysno::count()`. |
| SysnoSets.SysnoSet.Contains | src/set.rs:101-104 | `contains` is membership in the set. |
| SysnoSets.SysnoSet.IsEmpty | src/set.rs:110-112 | `is_empty` holds exactly when the set holds nothing. |
| SysnoSets.SysnoSet.Count | src/set.rs:125-129 | `count` is the number of syscalls in the set. |
| SysnoSets.SysnoSet.Clear | src/set.rs:115-119 | After `clear` the set is empty. |
| SysnoSets.SysnoSet.Insert | src/set.rs:133-140 | `insert` adds exactly that syscall and returns true exactly when it was absent. |
| SysnoSets.SysnoSet.Remove | src/set.rs:144-151 | `remove` removes exactly that syscall and returns true exactly when it was present. |
| SysnoSets.SysnoSet.Union | src/set.rs:155-164 | The set becomes the union of both sets. |
| SysnoSets.SysnoSet.Intersection | src/set.rs:168-177 | The set becomes the intersection. |
| SysnoSets.SysnoSet.Difference | src/set.rs:183-192 | The set becomes the members of `self` that are not in `other`. |
| SysnoSets.SysnoSet.SymmetricDifference | src/set.rs:198-207 | The set becomes the members of exactly one of the two. |
| SysnoSets.SysnoSet.Iter | src/set.rs:210-212 | `iter` starts an iterator whose pending numbers are the set's members in ascending order. |
| SysnoSets.NonZeroWordIter.Next | src/set.rs:290-301 | The next non-zero word is returned, and every word passed over is zero. `None` comes only once the words run out, and the count covers every word consumed. |
| SysnoSets.NonZeroWordIter.constructor | src/set.rs:282-284 | The word iterator starts at the first word with nothing consumed. |
| SysnoSets.SysnoSetIter.constructor | src/set.rs:314-320 | `SysnoSetIter::new` fetches the first non-zero word, and everything in the set is pending, in ascending order. |
| SysnoSets.SysnoSetIter.Next | src/set.rs:325-356 | `next` yields the first pending syscall and drops it; `None` only once nothing is pending. |
| SysnoMaps.DataIdx | src/map.rs:204-206 | `data_idx` lies within the slot array, and it is the same offset the set uses for the syscall's bit. |
| SysnoMaps.DataIdxInjective | src/map.rs:204-206 | Two syscalls share a slot only if they are the same syscall. |
| SysnoMaps.StoredSlot | src/map.rs:220-225 | After `extend`, a slot no item aims at is unchanged, and a slot holds the value of the last item that aims at it. |
| SysnoMaps.StoredUntouched | src/map.rs:220-225 | A slot that no item aims at keeps its value. |
| SysnoMaps.StoredLast | src/map.rs:220-225 | A slot holds the value of the last item that aims at it. |
| SysnoMaps.SysnoMap.Keys | src/map.rs:100-103 | The present keys are listed syscall numbers. |
| SysnoMaps.SysnoMap.constructor | src/map.rs:107-112 | `new` has no key present and keeps the given slots. |
| SysnoMaps.SysnoMap.WithSet | src/map.rs:115-123 | `new_with_set` has exactly the set's keys present. |
| SysnoMaps.SysnoMap.ContainsKey | src/map.rs:126-128 | `contains_key` is membership of the key. |
| SysnoMaps.SysnoMap.IsEmpty | src/map.rs:140-142 | `is_empty` holds exactly when no key is present. |
| SysnoMaps.SysnoMap.Count | src/map.rs:146-148 | `count` is the number of present keys. |
| SysnoMaps.SysnoMap.Get | src/map.rs:170-176 | `get` is `Some` exactly for a present key, whatever an absent key's slot holds, and then it holds that key's slot. |
| SysnoMaps.SysnoMap.GetMut | src/map.rs:179-185 | `get_mut` gives the key's slot index exactly for a present key. |
| SysnoMaps.SysnoMap.Clear | src/map.rs:131-136 | After `clear` no key is present and every slot holds `T::default()`. |
| SysnoMaps.SysnoMap.Insert | src/map.rs:151-158 | `insert` makes the key present and stores the value in its slot only. It returns the previous value exactly when the key was present. |
| SysnoMaps.SysnoMap.Remove | src/map.rs:161-167 | `remove` of a present key returns its value, drops the key and resets the slot to `T::default()`; for an absent key it returns `None` and changes nothing. |
| SysnoMaps.SysnoMap.Extend | src/map.rs:220-225 | `extend` adds the items' keys and leaves the slots as storing the items in turn would. |
| SysnoMaps.SysnoMap.Iter | src/map.rs:188-192 | `iter` pairs each present key, in set-iteration order, with what `get` returns for it. |
| SysnoMaps.SysnoMap.Values | src/map.rs:195-199 | `values` is the values of `iter`, in the same order. |
| SysnoMaps.SysnoMap.OrderedKeys | src/map.rs:188-199 | The keys visited are exactly the present keys, in strictly ascending order, and each is listed. |
| SysnoMaps.Entries | src/map.rs:191 | Each visited number is paired with the value in its slot. |
| Errnos.Constant | src/errno/macros.rs:20-22 | Each list item declares a constant carrying its listed code. |
| Errnos.AliasesShareCodes | src/errno/mod.rs:14-18 | `EWOULDBLOCK` is `EAGAIN` (11), and `EDEADLOCK` is `EDEADLK` (35). |
| Errnos.New | src/errno/mod.rs:20-23 | `new(num)` gives back `num` from `into_raw`. |
| Errnos.NewIntoRaw | src/errno/mod.rs:20-28 | `new(into_raw(e)) == e`: the two are inverse. |
| Errnos.Lookup | src/errno/macros.rs:27-32 | The match arms from arm `k` on: some arm carries the code exactly when the result is `Some`, and it is that arm's name and doc. |
| Errnos.NameAndDescription | src/errno/macros.rs:26-33 | `name_and_description` is `Some` of a listed item's name and doc exactly for a listed code, and `None` for any other. |
| Errnos.ConstantNamesItself | src/errno/macros.rs:26-33 | Each constant's `name_and_description` is its own name and doc string. |
| Errnos.Name | src/errno/mod.rs:67-71 | `name` is present exactly for a listed code, and it is that item's name. |
| Errnos.Description | src/errno/mod.rs:73-77 | `description` is present exactly when `name` is, and it is that item's doc. |
| Errnos.LowHalfOfTop | src/errno/mod.rs:39-42 | The low 32 bits of a value in the top-4095 window are the 32-bit negation of the distance from the top, so `as i32` loses nothing. |
| Errnos.FromRet | src/errno/mod.rs:37-46 | `from_ret(v)` is `Err` exactly when `v` read as signed is in [-4095, -1]. The error code is its negation, in 1..=4095. Otherwise it is `Ok(v)` unchanged. |
| Errnos.FromRetErrorsValid | src/errno/mod.rs:37-46 | Every error `from_ret` reports is a valid, positive code. |
| Errnos.FromRetExamples | src/errno/mod.rs:184-187 | `from_ret(-2 as usize)` is `Err(ENOENT)` and `from_ret(2)` is `Ok(2)`. With a 32-bit `usize`, `-11` gives `Err(EAGAIN)`. |
| Errnos.PointerSentinelIsAllOnes | src/errno/mod.rs:150-160 | For raw pointers the sentinel `-1isize as *mut c_void` has the same bits as `usize::MAX`. |
| Errnos.ResultOf | src/errno/mod.rs:56-65 | `result(x)` is `Err(last())` exactly when `x` is the type's sentinel, and `Ok(x)` otherwise. |
| Errnos.ResultOfSigned | src/errno/mod.rs:132-148 | For `i32`, `i64` and `isize` the sentinel is -1, so every non-negative value is `Ok`. |
| Errnos.DisplayAsWritten | src/errno/mod.rs:92-107 | `Display` as written fails (it negates in `i32`) exactly for the code `i32::MIN`. |
| Errnos.DisplayOverflowsAtMin | src/errno/mod.rs:96-100 | `Errno(i32::MIN)` is valid, so `Display` negates it, and its negation is no `i32`. |
| Errnos.Display | src/errno/mod.rs:92-107 | `Display` with the negation done without overflow agrees with the code as written on every other code. |
| Errnos.DisplayListed | src/errno/mod.rs:95-97 | A listed code prints as `-N NAME (desc)`, and the first word reads back as `-N`. |
| Errnos.DisplayUnlistedValid | src/errno/mod.rs:99-100 | A valid code off the list prints as its negation, which reads back. |
| Errnos.DisplayInvalid | src/errno/mod.rs:101-102 | Any other code prints as `Invalid errno ` followed by its `{:#x}`, which reads back as the code. |
| Errnos.DisplayShowsCode | src/errno/mod.rs:92-107 | The code can always be read back from the text. |
| Errnos.DisplayExample | src/errno/mod.rs:175-178 | `ENOENT` with its description prints as `-2 ENOENT (No such file or directory)`. |
| Helper.SyscallRet | src/helper.rs:4-10 | `syscall_ret(ret)` is `Err(-ret)` exactly when `ret` is in [-4096, -1], with the error in 1..=4096, and `Ok(ret)` unchanged otherwise. |
| Helper.SyscallRetAgainstFromRet | src/helper.rs:5 | The window is one value wider than `Errno::from_ret`'s. The two agree on every value but -4096, which is `Err(4096)` here and `Ok` there. |
| MachineInts.AsI32 | src/errno/mod.rs:42 | `x as i32` keeps the low 32 bits and is the identity on `i32` values. |
| MachineInts.AsU64 | src/helper.rs:5 | `i64 as u64` keeps non-negative values and wraps negative ones to the top of the range. |
| MachineInts.AsI64 | src/helper.rs:5 | Reading a `u64` as `i64` is undone by `as u64`. |
| MachineInts.AsI64AsU64 | src/helper.rs:5 | The casts between `i64` and `u64` are inverse. |
| MachineInts.AsU64Order | src/helper.rs:5 | `as u64` keeps order within the non-negative values and within the negative ones, so the unsigned comparison is a window test. |
| Args6.SlotsInjective | src/args6.rs:9-16 | Argument records with the same six slots are equal. |
| Args6.New | src/args6.rs:19-35 | `new(a0..a5)` stores the arguments in order. |
| Args6.FromArray | src/args6.rs:38-127 | `From<&[usize; k]>` copies the `k` values into the first `k` slots and zero-fills the rest. |
| Args6.ArgsMacro | src/args6.rs:129-152 | `syscall_args!` with `k` expressions (at most six) puts them in the first `k` slots in order and zeros in the rest. |
| Args6.ArgsMacroIsFromArray | src/args6.rs:129-152 | `syscall_args!` with `k` expressions is `From` of those `k` values: positional, zero-filled. |
| Args6.FromFullArrayIsNew | src/args6.rs:38-49 | `From<&[usize; 6]>` agrees with `new` on the same six values. |
| Args6.ZeroFillExample | src/args6.rs:158-193 | A one-zero array equals the empty macro, and three values are padded with three zeros. |
| Args.SlotsInjective | src/args.rs:9-19 | `u64` argument records with the same six slots are equal. |
| Args.New | src/args.rs:21-31 | `new` stores the six `u64` arguments in order. |
| Args.FromArray | src/args.rs:34-123 | `From<&[u64; k]>` copies the values into the first `k` slots and zero-fills the rest. |
| Args.ArgsMacro | src/args.rs:125-148 | `syscall_args!` with `k` expressions (at most six) puts them in the first `k` slots in order and zeros in the rest. |
| Args.ArgsMacroIsFromArray | src/args.rs:125-148 | `syscall_args!` with `k` expressions is `From` of those `k` values. |
| Args.FromResult64 | src/args.rs:199-206 | `From<Result<i64, i64>>` stores `Ok(v)` as `v` and `Err(e)` as `-e` (for any `e` but `i64::MIN`). |
| Args.FromResult32 | src/args.rs:208-217 | `From<Result<i64, i32>>` stores `Err(e)` as `-e` widened to `i64`, for any `e` but `i32::MIN`. |
| Args.ToResult64 | src/args.rs:219-223 | `Result<i64, i64>::from` reports errors only in 1..=4096, and converting its result back gives the same `SyscallRet`. |
| Args.ToResult32 | src/args.rs:225-229 | `Result<i64, i32>::from` agrees with the `i64` version, whose errors the cast to `i32` keeps intact, and converting back gives the same `SyscallRet`. |
| Args.RoundTrip64 | src/args.rs:231-258 | `Result → SyscallRet → Result` is the identity exactly for `Ok(v)` with `v` outside [-4096, -1] and for `Err(e)` with `e` in 1..=4096. |
| Args.RoundTrip32 | src/args.rs:208-229 | The same round trip for `Result<i64, i32>`. |
| Args.RoundTripLosses | src/args.rs:231-258 | The round trip turns `Err(5000)` into `Ok(-5000)` and `Ok(-22)` into `Err(22)`. It keeps `Err(22)` and the test's `Ok` value. |
| NumberFormat.DigitsRoundTrip | src/errno/mod.rs:96 | The digits written for a number read back as that number. |
| NumberFormat.Decimal | src/errno/mod.rs:96 | `{}` of an integer is non-empty, space-free, and starts with `-` exactly for a negative number. |
| NumberFormat.DecimalRoundTrip | src/errno/mod.rs:96 | `{}` of an integer reads back as that integer. |
| NumberFormat.AlternateHex | src/errno/mod.rs:102 | `{:#x}` starts with `0x`. |
| NumberFormat.AlternateHexRoundTrip | src/errno/mod.rs:102 | `{:#x}` reads back as the number. |
| NumberFormat.LeadingNumber | src/errno/mod.rs:96 | A number followed by a space-led tail is read back from the first word. |
| Text.NextNewline | syscalls-gen/src/tables.rs:53 | The next `'\n'` at or after `k`, or the end of the text. |
| Text.LinesUnlines | syscalls-gen/src/tables.rs:53 | `str::lines` recovers the lines of a text written line by line. |
| Text.LinesCons | syscalls-gen/src/tables.rs:53 | A line ended by `'\n'` splits off the front of the text. |
| Text.Trim | syscalls-gen/src/tables.rs:54 | `trim` leaves neither leading nor trailing whitespace. |
| Text.TrimShape | syscalls-gen/src/tables.rs:54 | `trim` returns a slice of its input. |
| Text.TrimNoop | syscalls-gen/src/tables.rs:54 | `trim` of a text without surrounding whitespace is the text itself. |
| Text.TokensShape | syscalls-gen/src/tables.rs:61-62 | The whitespace-separated fields are non-empty and contain no whitespace. |
| Text.TokensOfUnwords | syscalls-gen/src/tables.rs:61-62 | Joining space-free words with whitespace and splitting again gives the words back. |
| Text.ParseU32 | syscalls-gen/src/tables.rs:64-68 | `parse::<u32>` gives only values that fit `u32`. |
| Text.ParseU32Decimal | syscalls-gen/src/tables.rs:64-68 | A `u32` written in decimal parses back to itself. |
| Text.ParseU32Overflow | syscalls-gen/src/tables.rs:118 | Decimal digits beyond `u32::MAX` fail to parse. |
| Text.ParseI32 | sysnum/src/lib.rs:66 | `parse::<i32>` gives only values that fit `i32`. |
| Text.ParseI32Decimal | sysnum/src/lib.rs:66 | An `i32` written in decimal parses back to itself. |
| Text.DigitsValue | syscalls-gen/src/errors.rs:114 | A digit string has a value exactly when it is all decimal digits. |
| Patterns.Span | syscalls-gen/src/tables.rs:103 | A greedy `p*`: the longest prefix of characters satisfying `p`. |
| Patterns.SpanOf | syscalls-gen/src/tables.rs:103 | A run of `p` characters followed by a non-`p` character is matched exactly. |
| Patterns.Literal | syscalls-gen/src/tables.rs:103 | A literal matches exactly when the text starts with it, and leaves the rest. |
| Patterns.Spaces1 | syscalls-gen/src/tables.rs:103 | `\s+` consumes at least one space and all that follow. |
| Patterns.Spaces1Of | syscalls-gen/src/tables.rs:103 | `\s+` over a run of spaces before a non-space leaves what follows. |
| LineReading.CollectConcat | syscalls-gen/src/tables.rs:221-255 | Reading two pieces of text one after the other collects what each piece gives. |
| LineReading.CollectFlatten | syscalls-gen/src/tables.rs:221-255 | Reading the concatenated text of several items gives the concatenation of what each item's lines give. |
| LineReading.CollectNone | syscalls-gen/src/tables.rs:216-220 | Framing lines that a reader skips contribute nothing. |
| EntryOrder.StrLeTotal | syscalls-gen/src/tables.rs:30 | The derived order on names is total. |
| EntryOrder.StrLeAntisymmetric | syscalls-gen/src/tables.rs:30 | The derived order on names is antisymmetric. |
| EntryOrder.StrLeTransitive | syscalls-gen/src/tables.rs:30 | The derived order on names is transitive. |
| EntryOrder.EntryLeReflexive | syscalls-gen/src/tables.rs:30-35 | The derived order on rows is reflexive. |
| EntryOrder.EntryLeTotal | syscalls-gen/src/tables.rs:30-35 | The derived order on rows (`id`, then `name`, then `entry_point`) is total. |
| EntryOrder.EntryLeAntisymmetric | syscalls-gen/src/tables.rs:30-35 | It is antisymmetric. |
| EntryOrder.EntryLeTransitive | syscalls-gen/src/tables.rs:30-35 | It is transitive. |
| EntryOrder.Insert | syscalls-gen/src/tables.rs:93 | Inserting a row into a sorted table keeps it sorted and adds exactly that row. |
| EntryOrder.Sort | syscalls-gen/src/tables.rs:93 | `table.sort()` gives a sorted permutation of the rows. |
| EntryOrder.SortedUnique | syscalls-gen/src/tables.rs:93 | Two sorted arrangements of the same rows are equal, so every sorting algorithm gives the same table. |
| SyscallTables.FirstAbi | syscalls-gen/src/tables.rs:80-89 | The first configured ABI with that name, or none has it. |
| SyscallTables.ParseRow | syscalls-gen/src/tables.rs:53-89 | A line that is empty or starts with `#` after `trim` is skipped, and a kept row of a `syscall.tbl` line has an id that fits `u32`. |
| SyscallTables.ParseFields | syscalls-gen/src/tables.rs:61-89 | No fields is `MissingId`, a first field that does not parse as `u32` is `BadId`, and one or two fields after a good id are `MissingAbi` or `MissingName`. A row whose ABI is not configured is skipped. A kept row has the id plus the first matching ABI's offset, within `u32`, the third field as its name and the fourth, if any, as its entry point. |
| SyscallTables.FetchTable | syscalls-gen/src/tables.rs:48-96 | The loop over the lines gives the sorted rows of every line in file order, or the first line's error. A success is sorted. |
| SyscallTables.RowsConcat | syscalls-gen/src/tables.rs:53-90 | Reading two pieces of a file one after the other gives the rows of the first, then of the second, or the first error. |
| SyscallTables.RowsIdsFit | syscalls-gen/src/tables.rs:83 | Every row read has an id that fits `u32`. |
| SyscallTables.CanonicalRow | syscalls-gen/src/tables.rs:53-89 | A row written as whitespace-separated fields reads back as its id moved by the first matching ABI's offset, its name and its optional fourth field. Fields after the fourth are ignored, and a row of an ABI not asked for is dropped. An overflowing id is an error. |
| SyscallTables.FieldsOfRow | syscalls-gen/src/tables.rs:61-89 | The same, for the fields already split. |
| SyscallTables.CanonicalFields | syscalls-gen/src/tables.rs:53-62 | Space-free words joined by whitespace form a row line whose fields are those words. |
| UnistdHeaders.NrPrefix | syscalls-gen/src/tables.rs:103 | `^#define\s+__NR(?:3264)?_([a-z0-9_]+)\s+` captures a syscall-shaped name. |
| UnistdHeaders.MatchNr | syscalls-gen/src/tables.rs:103 | The first pattern captures a name and a run of digits. |
| UnistdHeaders.MatchArch | syscalls-gen/src/tables.rs:104 | The arch-relative pattern captures a name and a run of digits. |
| UnistdHeaders.Classify | syscalls-gen/src/tables.rs:114-164 | The trimmed line against the first pattern, then the second; any number it carries fits `u32`. |
| UnistdHeaders.FetchHeaderTable | syscalls-gen/src/tables.rs:100-172 | The loop over the headers gives the sorted rows of the scan of every header in order, or the first error. A success is sorted. |
| UnistdHeaders.ScanHeaderLines | syscalls-gen/src/tables.rs:113-165 | The loop over one header's lines gives the scan of its classified lines. |
| UnistdHeaders.ScanLinesConcat | syscalls-gen/src/tables.rs:110-166 | Scanning two pieces one after the other is scanning their concatenation. |
| UnistdHeaders.ScanLinesErr | syscalls-gen/src/tables.rs:132 | Once a line fails, no later line changes the result. |
| UnistdHeaders.ScanHeadersErr | syscalls-gen/src/tables.rs:110-166 | Once a header fails, no later header changes the result. |
| UnistdHeaders.ScanHeadersFlat | syscalls-gen/src/tables.rs:110-166 | Scanning the headers one after the other is scanning all their lines in order, with the base carried across headers. |
| UnistdHeaders.NrPrefixOf | syscalls-gen/src/tables.rs:103 | `#define __NR_<name> <rest>` matches with that name and rest. |
| UnistdHeaders.MatchNrOf | syscalls-gen/src/tables.rs:103 | `#define __NR_<name> <id>` matches the first pattern with that name and those digits. |
| UnistdHeaders.NrLineOf | syscalls-gen/src/tables.rs:116-118 | `#define __NR_<name> <id>` is read as the number `id` for `name`. |
| UnistdHeaders.ArchLineOf | syscalls-gen/src/tables.rs:146-149 | `#define __NR_<name> (__NR_arch_specific_syscall + <k>)` is read as the offset `k` for `name`. |
| UnistdHeaders.NotMatchNrOfArch | syscalls-gen/src/tables.rs:103-104 | The arch-relative form does not match the first pattern, so the second one is tried. |
| UnistdHeaders.MatchArchOf | syscalls-gen/src/tables.rs:104 | The arch-relative form matches the second pattern with that name and `k`. |
| UnistdHeaders.NrLineEffect | syscalls-gen/src/tables.rs:116-145 | A definition named `syscalls` is skipped. A first `arch_specific_syscall` sets the base, and a second is an error. A blocked name is skipped. Any other name adds the row `(id, name, sys_<name>)`. |
| UnistdHeaders.ArchLineEffect | syscalls-gen/src/tables.rs:146-163 | An arch-relative line before any base is an error. A blocked name is skipped. Any other name adds the row `(k + base, name, sys_<name>)`. |
| UnistdHeaders.HeaderStep | syscalls-gen/src/tables.rs:113-164 | A line that matches neither pattern changes nothing. An arch-relative line before the base is an error. Only an `arch_specific_syscall` line sets the base. Each line appends at most one row, and a row from a line whose number fits `u32` has an unblocked name, the entry point `sys_<name>` and a `u32` id. |
| UnistdHeaders.HeaderBase | syscalls-gen/src/tables.rs:126-163 | In a successful scan the base is set only by an `arch_specific_syscall` line, at most one such line occurs, and every arch-relative line comes after it. |
| UnistdHeaders.ClassifyAllFits | syscalls-gen/src/tables.rs:118 | Every number a classified line carries fits `u32`. |
| UnistdHeaders.HeaderRows | syscalls-gen/src/tables.rs:137-159 | Every row a successful scan collects has an unblocked name, the entry point `sys_<name>` and a `u32` id. |
| SyscallFile.IdentInjective | syscalls-gen/src/tables.rs:38-44 | `ident` maps distinct names without `#` to distinct identifiers. |
| SyscallFile.IdentWord | syscalls-gen/src/tables.rs:38-44 | `ident` leaves every name but `break` unchanged, and an identifier stays a single word. |
| SyscallFile.WriteSyscallFile | syscalls-gen/src/tables.rs:214-258 | The `writeln!`s give the header, a doc line and a variant line per row in table order, then the `LAST` line of the final row. |
| SyscallFile.CollectFile | syscalls-gen/src/tables.rs:214-258 | A reader that skips the framing finds in the file what it finds in each row, in order, then in the `LAST` line. |
| SyscallFile.ReadBack | syscalls-gen/src/tables.rs:214-258 | The written file reads back as every row's identifier and id in table order, whatever its entry point, and as whether each row has an entry point. `LAST` reads back as the final row's identifier. |
| SyscallFile.RowReadBack | syscalls-gen/src/tables.rs:221-251 | One row's two lines read back as its identifier and id, and as whether it has an entry point. |
| SyscallFile.DocLineRead | syscalls-gen/src/tables.rs:222-244 | The doc line links the man page exactly for a row with an entry point, and notes its absence otherwise. |
| SyscallFile.VariantLineRead | syscalls-gen/src/tables.rs:228-233 | The variant line reads back as `ident = id,`. |
| SyscallFile.LastLineRead | syscalls-gen/src/tables.rs:254 | The `LAST` line reads back as the identifier it names. |
| SyscallFile.VariantOf | syscalls-gen/src/tables.rs:230 | A variant read back carries an id that fits `u32`. |
| ErrnoGen.DefineHead | syscalls-gen/src/errors.rs:106 | `^#define\s+(E\w+)\s+` captures an errno-shaped name. |
| ErrnoGen.MatchDefinition | syscalls-gen/src/errors.rs:106 | The definition pattern captures an errno name and a non-empty run of digits. |
| ErrnoGen.MatchAlias | syscalls-gen/src/errors.rs:108 | The alias pattern captures two errno names. |
| ErrnoGen.Comment | syscalls-gen/src/errors.rs:106-124 | The optional `/* … */` group yields its text after `trim`: no whitespace at either end. |
| ErrnoGen.ErrnoList.constructor | syscalls-gen/src/errors.rs:95 | The list starts empty. |
| ErrnoGen.ErrnoList.ParseErrno | syscalls-gen/src/errors.rs:103-136 | `parse_errno` appends what the lines give, in line order, and fails exactly when a line's number does not fit `u32`. The lines before it have been appended. |
| ErrnoGen.FetchErrno | syscalls-gen/src/errors.rs:92-101 | `fetch_errno` gives the contents of the files, parsed in order, or the first error. |
| ErrnoGen.ScanLines | syscalls-gen/src/errors.rs:111-135 | A file reads without error exactly when every line parses. It then gives the concatenation of what each line gives, in line order. |
| ErrnoGen.ErrnoFilesInOrder | syscalls-gen/src/errors.rs:92-101 | The files read without error exactly when each one does. They then give their items concatenated in path order. |
| ErrnoGen.ScanWellFormed | syscalls-gen/src/errors.rs:111-133 | Every item read has errno-shaped names and a `u32` number, and its description, when present, has no whitespace at either end. |
| ErrnoGen.ParsedWellFormed | syscalls-gen/src/errors.rs:112-131 | The item of a single line has errno-shaped names and a `u32` number, and its description has no whitespace at either end. |
| ErrnoGen.DefineHeadOf | syscalls-gen/src/errors.rs:106 | `#define <name> <rest>` matches with that name and rest. |
| ErrnoGen.CommentOf | syscalls-gen/src/errors.rs:106 | A `/* desc */` comment matches and gives back the trimmed description, and no comment gives `None`. |
| ErrnoGen.DefinitionLineOf | syscalls-gen/src/errors.rs:112-121 | `#define E<name> <n> /* desc */` with `n` within `u32` reads as `Definition(name, n, desc)`. |
| ErrnoGen.DefinitionOverflow | syscalls-gen/src/errors.rs:114 | The same line with `n` beyond `u32` is an error. |
| ErrnoGen.DefinitionMatch | syscalls-gen/src/errors.rs:106 | Such a line matches the definition pattern with its name, digits and description. |
| ErrnoGen.AliasLineOf | syscalls-gen/src/errors.rs:122-131 | `#define E<alias> E<name> /* desc */` reads as `Alias(alias, name, desc)`. |
| ErrnoGen.AliasNotDefinition | syscalls-gen/src/errors.rs:112-122 | An alias line does not match the definition pattern, so the alias pattern is tried. |
| ErrnoGen.AliasMatch | syscalls-gen/src/errors.rs:108 | An alias line matches the alias pattern with both names and the description. |
| ErrnoGen.OtherLineSkipped | syscalls-gen/src/errors.rs:111-133 | A line that is not a `#define` is ignored. |
| ErrnoGen.WriteErrnoFile | syscalls-gen/src/errors.rs:13-57 | `ErrnoFile::fmt` gives the framing and one line per definition in order, or panics (`None`). |
| ErrnoGen.WritePanics | syscalls-gen/src/errors.rs:28-41 | Writing panics exactly when some definition lacks a description and is neither `ERESTARTSYS` nor `ERESTARTNOINTR`. |
| ErrnoGen.BodyFlatten | syscalls-gen/src/errors.rs:21-50 | The body is the concatenation of each item's text in order, with nothing for an alias. |
| ErrnoGen.ErrnoReadBack | syscalls-gen/src/errors.rs:13-57 | The written file reads back as each definition's name, number and description, in order. Aliases are left out, and the two restart codes get their fixed text. |
| ErrnoGen.ItemReadBack | syscalls-gen/src/errors.rs:22-49 | One item's text reads back as its definition, or as nothing for an alias. |
| ErrnoGen.DefinitionLineRead | syscalls-gen/src/errors.rs:43 | `NAME(num) = "desc",` reads back as its name, number and description. |
| Sysnum.SkipToName | sysnum/src/lib.rs:64 | `skip_while(!starts_with("__NR_"))` drops exactly the leading words that do not start with `__NR_`. |
| Sysnum.FirstNumber | sysnum/src/lib.rs:66 | The first word that parses as an `i32`, every word before it failing to parse. |
| Sysnum.SyscallOf | sysnum/src/lib.rs:59-73 | A line contributes only when it starts with `#define` and mentions `__NR_`. It gives an `__NR_`-prefixed name and an `i32` number. |
| Sysnum.GenSyscallsFrom | sysnum/src/lib.rs:54-77 | The loop collects what each line gives, in line order. |
| Sysnum.SyscallsNamed | sysnum/src/lib.rs:59-73 | Every pair read has an `__NR_` name and an `i32` number. |
| Sysnum.DefineLine | sysnum/src/lib.rs:59-73 | A `#define` of an `__NR_` name followed by words reads as the name and the first `i32` word, and is dropped when there is none. |
| Sysnum.DefineNumber | sysnum/src/lib.rs:59-73 | `#define __NR_<name> <nr>` reads as `(__NR_<name>, nr)`, with the prefix kept. |
| Sysnum.ArchDefineDropped | sysnum/src/lib.rs:66-73 | The arch-relative form `(<base> + <k>)` has no `i32` word, so the line is dropped. |
| Sysnum.DefinesInOrder | sysnum/src/lib.rs:54-77 | A header of plain `#define`s reads back as its pairs in line order, unsorted and with duplicates kept. |

## Left out

- I/O is not modelled. This covers `fetch_path`, `try_join_all`, the creation
  of the output files, `gen_syscalls_from`'s `File::open`, the `cpp` run of
  `get_asm_unistd_h` (sysnum/src/lib.rs:24-52), `Source::generate`'s header
  line and `println!`. The readers take the file contents as strings, and the
  writers produce lists of lines.
- Whitespace (`\s`, `char::is_whitespace` and `trim`) is the full Unicode
  `White_Space` set in the model (`Text.IsSpace`). The regular expressions'
  `\w` and `\d` are Unicode classes too, but the model narrows them to ASCII
  (`Patterns.IsWordChar`, `Patterns.IsAsciiDigit`). A header with a non-ASCII
  letter or digit in a name or number is therefore read differently.
- `str::lines` is modelled for `'\n'` and `"\r\n"` endings only.
- `Errno::last()` reads the thread's `errno`, so it is a parameter of
  `Errnos.ResultOf`. The FFI, the raw `syscall` entry points, the `asm!`
  per-architecture code and `Errno::from_io_error` are not modelled.
- The `Debug`, `Display` (for `Sysno`) and serde impls of the containers are
  not modelled, nor are `BitOr`, `FromIterator` and `Extend` for `SysnoSet`.
  Each is a thin wrapper over `insert` or `union`.
- SysnoSets.SysnoSet.Union: `union`, `intersection`, `difference` and
  `symmetric_difference` take `self` by value and return it. The model
  updates the receiver's array in place and requires the two arrays to be
  distinct, since `&other` never aliases an owned `self`.
- SysnoMaps.SysnoMap.GetMut: it returns the slot's index rather than a
  `&mut T`, because a reference into the array has no counterpart here.
- SysnoMaps.SysnoMap.Iter: `iter` and `values` are modelled as the sequences
  the iterators yield, not as lazy iterators.
- `T::default()` is a value the map is given at construction.
- Syscalls.FromU32: the `panic!` of `From<u32>` and `From<i32>` is a
  precondition.
- SyscallFile.WriteSyscallFile: it requires a non-empty table, because
  `last().unwrap()` panics on an empty one.
- ErrnoGen.WriteErrnoFile: the panic for an undescribed code is modelled as
  `None`. The lines written before the panic are not modelled.
- The generated tables under `src/arch/*` and `src/errno/generated.rs` are not
  part of this model. A table is a parameter. The three errno constants used
  in examples (`ENOENT` 2, `EAGAIN` 11, `EDEADLK` 35) are the asm-generic
  values.
- SyscallTables.ParseFields: `id + abi.offset` in `u32` is an overflow panic
  in a debug build and wraps in a release build. The model makes it the error
  `Overflow`.
- UnistdHeaders.HeaderStep: `id + offset` at syscalls-gen/src/tables.rs:156
  is the same `u32` addition, a panic in a debug build and a wrap in a release
  build. The model makes a sum above `u32::MAX` the error `Overflow`.
- Args.FromResult64: `-ret_err` on `i64::MIN` (src/args.rs:203) overflows, a panic
  in a debug build and `i64::MIN` in a release build. The model makes
  `ret_err != i64::MIN` a precondition.
- Args.FromResult32: `-ret_err` on `i32::MIN` (src/args.rs:213) overflows in the
  same way. The model makes `ret_err != i32::MIN` a precondition.
- UnistdHeaders.Classify: `cap[2].parse::<u32>()?` on too many digits is an
  error, modelled as a line whose number is `None`.
- The ABI offsets (`o32` 4000, `n64` 5000 and the rest) come from
  syscalls-gen/src/main.rs:137-143. They appear as constants, and which
  architecture uses which is not modelled.

## Findings

| source | as written | input that shows it | evidently intended | confidence | as-written member | corrected member |
|---|---|---|---|---|---|---|
| src/arch/macros.rs:74 | `next` scans while `next_id < last().id()`, so it never reaches `last()` | a table with rows 0, 1: `next(Sysno(0))` is `None`, and `iter()` yields only row 0 | `next` returns the next listed syscall up to `last()` (the doc comment at 65-66), and `iter()` yields every syscall | not executed | Syscalls.NextAsWrittenSkipsLast | Syscalls.IterFixedIsAll |
| src/errno/mod.rs:96-100 | `Display` negates the code with `-self.0` in `i32` | `Errno::new(i32::MIN)`, which `is_valid` accepts, overflows on negation | print the negated code for every valid code | not executed | Errnos.DisplayOverflowsAtMin | Errnos.DisplayShowsCode |
