/** `syscall_ret` of src/helper.rs, the older decoding of a raw `i64` return value. */
module Helper {
  import opened Wrappers
  import opened MachineInts
  import Errnos

  /**
   * A value whose bits, as `u64`, are at least those of `-4096i64` is an
   * error, reported negated; every other value is returned unchanged.
   */
  function SyscallRet(ret: I64): (r: Result<I64, I64>)
    ensures r.Err? <==> -4096 <= ret <= -1
    ensures r.Err? ==> r.error == -ret && 1 <= r.error <= 4096
    ensures r.Ok? ==> r.value == ret
  {
    if AsU64(ret) >= AsU64(-4096) then Err(-ret) else Ok(ret)
  }

  /**
   * `syscall_ret` and `Errno::from_ret` agree on the same 64 bits except at
   * `-4096`, which only `syscall_ret` takes as an error.
   */
  lemma SyscallRetAgainstFromRet(ret: I64)
    ensures ret != -4096 ==>
      (SyscallRet(ret).Err? <==> Errnos.FromRet(64, AsU64(ret)).Err?)
    ensures ret != -4096 && SyscallRet(ret).Err? ==>
      SyscallRet(ret).error == Errnos.FromRet(64, AsU64(ret)).error.code
    ensures SyscallRet(ret).Ok? ==> Errnos.FromRet(64, AsU64(ret)) == Ok(AsU64(ret))
    ensures SyscallRet(-4096) == Err(4096)
    ensures Errnos.FromRet(64, AsU64(-4096)) == Ok(0x1_0000_0000_0000_0000 - 4096)
  {
  }
}
