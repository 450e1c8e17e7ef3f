/**
 * The `u64` argument block and the `i64` return value of a syscall
 * (src/args.rs), with the conversions between a raw return value and a
 * `Result`.
 */
module Args {
  import opened Wrappers
  import opened MachineInts
  import Helper

  /** `SyscallArgs` over `u64`: equality is field by field. */
  datatype SyscallArgs = SyscallArgs(arg0: U64, arg1: U64, arg2: U64, arg3: U64, arg4: U64, arg5: U64)

  /** The six arguments in register order. */
  function Slots(a: SyscallArgs): (r: seq<U64>)
    ensures |r| == 6
  {
    [a.arg0, a.arg1, a.arg2, a.arg3, a.arg4, a.arg5]
  }

  /** An argument block is determined by its slots. */
  lemma SlotsInjective(a: SyscallArgs, b: SyscallArgs)
    requires Slots(a) == Slots(b)
    ensures a == b
  {
    assert a.arg0 == Slots(a)[0] && a.arg1 == Slots(a)[1] && a.arg2 == Slots(a)[2];
    assert a.arg3 == Slots(a)[3] && a.arg4 == Slots(a)[4] && a.arg5 == Slots(a)[5];
  }

  function Zeros(n: nat): (r: seq<U64>)
    ensures |r| == n && forall i :: 0 <= i < n ==> r[i] == 0
  {
    seq(n, _ => 0)
  }

  /** `SyscallArgs::new`: the arguments go into the slots in order. */
  function New(a0: U64, a1: U64, a2: U64, a3: U64, a4: U64, a5: U64): (r: SyscallArgs)
    ensures Slots(r) == [a0, a1, a2, a3, a4, a5]
  {
    SyscallArgs(a0, a1, a2, a3, a4, a5)
  }

  /** The seven `From<&[u64; k]>` impls: k elements first, zeros after. */
  function FromArray(args: seq<U64>): (r: SyscallArgs)
    requires |args| <= 6
    ensures Slots(r) == args + Zeros(6 - |args|)
  {
    match |args|
    case 6 => SyscallArgs(args[0], args[1], args[2], args[3], args[4], args[5])
    case 5 => SyscallArgs(args[0], args[1], args[2], args[3], args[4], 0)
    case 4 => SyscallArgs(args[0], args[1], args[2], args[3], 0, 0)
    case 3 => SyscallArgs(args[0], args[1], args[2], 0, 0, 0)
    case 2 => SyscallArgs(args[0], args[1], 0, 0, 0, 0)
    case 1 => SyscallArgs(args[0], 0, 0, 0, 0, 0)
    case 0 => SyscallArgs(0, 0, 0, 0, 0, 0)
  }

  /** The seven arms of this module's `syscall_args!`. */
  function ArgsMacro(args: seq<U64>): (r: SyscallArgs)
    requires |args| <= 6
    ensures Slots(r) == args + Zeros(6 - |args|)
  {
    match |args|
    case 6 => New(args[0], args[1], args[2], args[3], args[4], args[5])
    case 5 => New(args[0], args[1], args[2], args[3], args[4], 0)
    case 4 => New(args[0], args[1], args[2], args[3], 0, 0)
    case 3 => New(args[0], args[1], args[2], 0, 0, 0)
    case 2 => New(args[0], args[1], 0, 0, 0, 0)
    case 1 => New(args[0], 0, 0, 0, 0, 0)
    case 0 => New(0, 0, 0, 0, 0, 0)
  }

  /** `syscall_args!` with k expressions builds what `From<&[u64; k]>` builds from them. */
  lemma ArgsMacroIsFromArray(args: seq<U64>)
    requires |args| <= 6
    ensures ArgsMacro(args) == FromArray(args)
    ensures Slots(ArgsMacro(args)) == args + Zeros(6 - |args|)
  {
    SlotsInjective(ArgsMacro(args), FromArray(args));
  }

  /** The raw return value of a syscall. */
  datatype SyscallRet = SyscallRet(retval: I64)

  /**
   * `From<Result<i64, i64>>`: a success value is stored as is, an error
   * negated. Negating `i64::MIN` overflows, so that error is excluded.
   */
  function FromResult64(res: Result<I64, I64>): (r: SyscallRet)
    requires res.Err? ==> res.error != I64_MIN
    ensures res.Ok? ==> r.retval == res.value
    ensures res.Err? ==> r.retval + res.error == 0
  {
    match res
    case Ok(v) => SyscallRet(v)
    case Err(e) => SyscallRet(-e)
  }

  /**
   * `From<Result<i64, i32>>`: `-ret_err as i64` negates in `i32` before
   * widening, so `i32::MIN` overflows and is excluded.
   */
  function FromResult32(res: Result<I64, I32>): (r: SyscallRet)
    requires res.Err? ==> res.error != I32_MIN
    ensures res.Ok? ==> r.retval == res.value
    ensures res.Err? ==> r.retval + res.error == 0 && I32_MIN < r.retval <= I32_MAX
  {
    match res
    case Ok(v) => SyscallRet(v)
    case Err(e) => SyscallRet(-e)
  }

  /** `From<SyscallRet> for Result<i64, i64>`: decoded by `syscall_ret`; converting back gives the same value. */
  function ToResult64(s: SyscallRet): (r: Result<I64, I64>)
    ensures r.Err? ==> 1 <= r.error <= 4096
    ensures FromResult64(r) == s
  {
    Helper.SyscallRet(s.retval)
  }

  /**
   * `From<SyscallRet> for Result<i64, i32>`: the error of `syscall_ret`
   * cast with `as i32`, which loses nothing because it lies in 1..=4096.
   */
  function ToResult32(s: SyscallRet): (r: Result<I64, I32>)
    ensures r.Err? <==> ToResult64(s).Err?
    ensures r.Err? ==> r.error == ToResult64(s).error
    ensures r.Ok? ==> r.value == ToResult64(s).value
    ensures FromResult32(r) == s
  {
    match Helper.SyscallRet(s.retval)
    case Ok(v) => Ok(v)
    case Err(e) => Err(AsI32(e))
  }

  /** A `Result<i64, i64>` survives the trip through `SyscallRet` exactly when `syscall_ret` decodes it as it was. */
  lemma RoundTrip64(res: Result<I64, I64>)
    requires res.Err? ==> res.error != I64_MIN
    ensures ToResult64(FromResult64(res)) == res <==>
      (res.Ok? && !(-4096 <= res.value <= -1)) || (res.Err? && 1 <= res.error <= 4096)
  {
  }

  /** The same for `Result<i64, i32>`. */
  lemma RoundTrip32(res: Result<I64, I32>)
    requires res.Err? ==> res.error != I32_MIN
    ensures ToResult32(FromResult32(res)) == res <==>
      (res.Ok? && !(-4096 <= res.value <= -1)) || (res.Err? && 1 <= res.error <= 4096)
  {
  }

  /** An error code outside 1..=4096 comes back as a success, and a small negative success as an error. */
  lemma RoundTripLosses()
    ensures ToResult64(FromResult64(Err(5000))) == Ok(-5000)
    ensures ToResult64(FromResult64(Ok(-22))) == Err(22)
    ensures ToResult64(FromResult64(Err(22))) == Err(22)
    ensures ToResult64(FromResult64(Ok(0x7fff_1234_5678))) == Ok(0x7fff_1234_5678)
  {
  }
}
