/**
 * The `usize` argument block of a syscall (src/args6.rs): six registers'
 * worth of raw arguments, filled positionally, unused ones zero.
 */
module Args6 {
  import opened Words

  /** `SyscallArgs`: equality is field by field. */
  datatype SyscallArgs = SyscallArgs(arg0: Word, arg1: Word, arg2: Word, arg3: Word, arg4: Word, arg5: Word)

  /** The six arguments in register order. */
  function Slots(a: SyscallArgs): (r: seq<Word>)
    ensures |r| == 6
  {
    [a.arg0, a.arg1, a.arg2, a.arg3, a.arg4, a.arg5]
  }

  /** An argument block is determined by its slots. */
  lemma SlotsInjective(a: SyscallArgs, b: SyscallArgs)
    requires Slots(a) == Slots(b)
    ensures a == b
  {
    assert a.arg0 == Slots(a)[0] && a.arg1 == Slots(a)[1] && a.arg2 == Slots(a)[2];
    assert a.arg3 == Slots(a)[3] && a.arg4 == Slots(a)[4] && a.arg5 == Slots(a)[5];
  }

  function Zeros(n: nat): (r: seq<Word>)
    ensures |r| == n && forall i :: 0 <= i < n ==> r[i] == 0
  {
    seq(n, _ => 0)
  }

  /** `SyscallArgs::new`: the arguments go into the slots in order. */
  function New(a0: Word, a1: Word, a2: Word, a3: Word, a4: Word, a5: Word): (r: SyscallArgs)
    ensures Slots(r) == [a0, a1, a2, a3, a4, a5]
  {
    SyscallArgs(a0, a1, a2, a3, a4, a5)
  }

  /**
   * The seven `From<&[usize; k]>` impls, k = 0..6: the first k slots take
   * the array's elements, the others are zero.
   */
  function FromArray(args: seq<Word>): (r: SyscallArgs)
    requires |args| <= 6
    ensures Slots(r) == args + Zeros(6 - |args|)
  {
    match |args|
    case 6 => SyscallArgs(args[0], args[1], args[2], args[3], args[4], args[5])
    case 5 => SyscallArgs(args[0], args[1], args[2], args[3], args[4], 0)
    case 4 => SyscallArgs(args[0], args[1], args[2], args[3], 0, 0)
    case 3 => SyscallArgs(args[0], args[1], args[2], 0, 0, 0)
    case 2 => SyscallArgs(args[0], args[1], 0, 0, 0, 0)
    case 1 => SyscallArgs(args[0], 0, 0, 0, 0, 0)
    case 0 => SyscallArgs(0, 0, 0, 0, 0, 0)
  }

  /** The seven arms of `syscall_args!`, by the number of expressions given. */
  function ArgsMacro(args: seq<Word>): (r: SyscallArgs)
    requires |args| <= 6
    ensures Slots(r) == args + Zeros(6 - |args|)
  {
    match |args|
    case 6 => New(args[0], args[1], args[2], args[3], args[4], args[5])
    case 5 => New(args[0], args[1], args[2], args[3], args[4], 0)
    case 4 => New(args[0], args[1], args[2], args[3], 0, 0)
    case 3 => New(args[0], args[1], args[2], 0, 0, 0)
    case 2 => New(args[0], args[1], 0, 0, 0, 0)
    case 1 => New(args[0], 0, 0, 0, 0, 0)
    case 0 => New(0, 0, 0, 0, 0, 0)
  }

  /** `syscall_args!` with k expressions builds what `From<&[usize; k]>` builds from them. */
  lemma ArgsMacroIsFromArray(args: seq<Word>)
    requires |args| <= 6
    ensures ArgsMacro(args) == FromArray(args)
    ensures Slots(ArgsMacro(args)) == args + Zeros(6 - |args|)
  {
    SlotsInjective(ArgsMacro(args), FromArray(args));
  }

  /** A full array and `new` on the same six values agree. */
  lemma FromFullArrayIsNew(args: seq<Word>)
    requires |args| == 6
    ensures FromArray(args) == New(args[0], args[1], args[2], args[3], args[4], args[5])
  {
  }

  /** The zero-filling is what makes `from(&[0])` equal to `syscall_args!()`. */
  lemma ZeroFillExample()
    ensures FromArray([0]) == ArgsMacro([])
    ensures FromArray([1, 2, 3]) == New(1, 2, 3, 0, 0, 0)
  {
  }
}
