// The quantum device on the heap: open, release, ioctl and exit, updating the device
// and the memory manager in place.
module DeviceHeap {
  import opened CInt
  import opened QMemSpec
  import opened QMemHeap
  import opened QuantumDevice

  // `dev->memory`: NULL, an error code cast by ERR_PTR, or a block.
  datatype Pointer = NullPtr | ErrorPtr(errno: int) | BlockPtr(block: Node)

  class Device {
    const qmem: QMem
    var memory: Pointer
    var openCount: int
    var operationCount: int
    // an error code has been used as a block: the kernel does nothing more
    var crashed: bool

    ghost predicate Valid()
      reads this`memory
      reads qmem`Used, qmem`nextId, qmem.Used`next, qmem.Used`prev, qmem.Used`live, qmem.Used`stateFrees
      reads qmem.head`next, qmem.head`prev, qmem.head`live
    {
      qmem.Valid() && (memory.BlockPtr? ==> memory.block in qmem.Used)
    }

    ghost function ModelMem(): Mem
      reads this`memory
    {
      match memory
      case NullPtr => Null
      case ErrorPtr(e) => ErrPtr(e)
      case BlockPtr(b) => Ptr(b.id)
    }

    ghost function Model(): Dev
      reads this`memory, this`operationCount, this`crashed, qmem, qmem.Used
    {
      Dev(qmem.Model(), ModelMem(), operationCount, crashed)
    }

    // What ctrlxt_quantum_device_init leaves when every registration succeeds.
    constructor ()
      ensures Valid() && fresh(qmem) && fresh(qmem.head) && Model() == QuantumDevice.Start() && openCount == 0
    {
      qmem := new QMem();
      memory, openCount, operationCount, crashed := NullPtr, 0, 0, false;
      new;
      var _ := qmem.Init(true);
    }

    // quantum_open
    method Open() returns (ret: int)
      modifies this`openCount
      ensures ret == (if Wrap32(old(openCount) + 1) > 1 then -EBUSY else 0)
      ensures openCount == Wrap32(old(openCount) + (if ret == 0 then 1 else 0))
    {
      WrapStep(openCount + 1, -1);
      openCount := Wrap32(openCount + 1);
      if openCount > 1 {
        openCount := Wrap32(openCount - 1);
        return -EBUSY;
      }
      return 0;
    }

    // quantum_release
    method Release() returns (ret: int)
      modifies this`openCount
      ensures ret == 0 && openCount == Wrap32(old(openCount) - 1)
    {
      openCount := Wrap32(openCount - 1);
      return 0;
    }

    // quantum_ioctl. A FREE while the pointer holds an error code hands that code to
    // ctrlxt_qmem_free as a block; the call then does not return.
    method Ioctl(cmd: Cmd) returns (ret: int)
      requires Valid()
      modifies this`memory, this`operationCount, this`crashed, qmem, qmem.head, qmem.Used
      ensures Valid() && Model() == QuantumDevice.Ioctl(old(Model()), cmd)
      ensures !crashed ==> ret == IoctlRet(old(Model()), cmd)
      // what that is for each kind of command
      ensures !crashed && cmd.CmdAlloc? && cmd.copied ==>
                (ret == 0 <==> memory.BlockPtr?) && (ret != 0 ==> ret < 0 && memory == ErrorPtr(ret))
      ensures !crashed && (cmd.CmdAlloc? || cmd.CmdGate?) && !cmd.copied ==> ret == -14
      ensures !crashed && cmd.CmdFree? ==> ret == 0 && memory == NullPtr
      ensures !crashed && cmd.CmdOther? ==> ret == -25
    {
      ret := 0;
      if crashed {
        return;
      }
      ret := Dispatch(cmd);
      if ret == 0 && !crashed {
        operationCount := Wrap32(operationCount + 1);
      }
    }

    // The switch.
    method Dispatch(cmd: Cmd) returns (ret: int)
      requires Valid() && !crashed
      modifies this`memory, this`crashed, qmem, qmem.head, qmem.Used
      ensures Valid() && Model() == IoctlMem(old(Model()), cmd) && ret == IoctlRet(old(Model()), cmd)
      ensures cmd.CmdAlloc? && cmd.copied ==>
                (ret == 0 <==> memory.BlockPtr?) && (ret != 0 ==> ret < 0 && memory == ErrorPtr(ret))
      ensures cmd.CmdFree? && !crashed ==> memory == NullPtr
    {
      match cmd {
        case CmdInit(r) => ret := r;
        case CmdMeasure(r) => ret := r;
        case CmdGate(copied, r) =>
          if !copied {
            return -EFAULT;
          }
          ret := r;
        case CmdAlloc(copied, n, flags, blockOk, stateOk) =>
          if !copied {
            return -EFAULT;
          }
          ret := AllocMemory(n, flags, blockOk, stateOk);
        case CmdFree =>
          FreeMemory();
          ret := 0;
        case CmdOther => ret := -ENOTTY;
      }
    }

    method AllocMemory(n: nat, flags: int, blockOk: bool, stateOk: bool) returns (ret: int)
      requires Valid()
      modifies this`memory, qmem, qmem.head, qmem.Used
      ensures Valid()
      ensures var cmd := CmdAlloc(true, n, flags, blockOk, stateOk);
              Model() == IoctlMem(old(Model()), cmd) && ret == IoctlRet(old(Model()), cmd)
      ensures (ret == 0 <==> memory.BlockPtr?) && (ret != 0 ==> ret < 0 && memory == ErrorPtr(ret))
      ensures crashed == old(crashed) && operationCount == old(operationCount)
    {
      var block, err := qmem.Alloc(n, flags, blockOk, stateOk);
      memory := if block == null then ErrorPtr(err) else BlockPtr(block);
      ret := if memory.ErrorPtr? then memory.errno else 0;
    }

    method FreeMemory()
      requires Valid()
      modifies this`memory, this`crashed, qmem, qmem.head, qmem.Used
      ensures Valid()
      ensures !old(crashed) ==> Model() == IoctlMem(old(Model()), CmdFree)
      ensures crashed <==> old(crashed) || old(memory).ErrorPtr?
      ensures !crashed ==> memory == NullPtr
    {
      match memory {
        case NullPtr =>
        case ErrorPtr(_) => crashed := true;
        case BlockPtr(block) =>
          qmem.Free(block);
          assert FreeMem(old(Model())).q == qmem.Model();
          memory := NullPtr;
      }
    }

    // quantum_exit: the block in dev->memory is released, the field is not reset.
    method Exit()
      requires Valid()
      modifies this`crashed, qmem, qmem.head, qmem.Used
      ensures qmem.Valid() && memory == old(memory) && Model() == QuantumDevice.Exit(old(Model()))
    {
      if crashed {
        return;
      }
      match memory {
        case NullPtr =>
        case ErrorPtr(_) => crashed := true;
        case BlockPtr(block) => qmem.Free(block);
      }
    }
  }
}
